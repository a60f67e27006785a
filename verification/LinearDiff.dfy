/** The line diff for large texts: lines matched greedily, and `diff_lines`, which chooses between the two methods. */
module LinearDiff {
  import opened Numbers
  import opened Wrappers
  import opened LineChanges
  import opened LcsDiff

  // ---- matching ----

  datatype Pair = Pair(inBase: nat, inText: nat)

  /** The positions at which a line stands among the first `n`, in order. */
  function Positions(text: seq<Line>, line: Line, n: nat): seq<nat>
    requires n <= |text|
  {
    if n == 0 then []
    else Positions(text, line, n - 1) + (if text[n - 1] == line then [n - 1] else [])
  }

  function FirstFree(positions: seq<nat>, used: set<nat>): Option<nat> {
    if positions == [] then None
    else if positions[0] !in used then Some(positions[0])
    else FirstFree(positions[1..], used)
  }

  function Used(pairs: seq<Pair>): set<nat> {
    set p | p in pairs :: p.inText
  }

  /** The pairs found for the first `n` lines: each line takes the first equal line still free. */
  function Matched(base: seq<Line>, text: seq<Line>, n: nat): seq<Pair>
    requires n <= |base|
  {
    if n == 0 then []
    else
      var before := Matched(base, text, n - 1);
      match FirstFree(Positions(text, base[n - 1], |text|), Used(before))
      case Some(m) => before + [Pair(n - 1, m)]
      case None => before
  }

  method FindFree(positions: seq<nat>, used: set<nat>) returns (r: Option<nat>)
    ensures r == FirstFree(positions, used)
  {
    for i := 0 to |positions|
      invariant FirstFree(positions, used) == FirstFree(positions[i..], used)
    {
      if positions[i] !in used {
        return Some(positions[i]);
      }
      assert positions[i..][1..] == positions[i + 1..];
    }
    r := None;
  }

  method MatchLines(base: seq<Line>, text: seq<Line>) returns (pairs: seq<Pair>)
    ensures pairs == Matched(base, text, |base|)
  {
    pairs := [];
    var used := {};
    for i := 0 to |base|
      invariant pairs == Matched(base, text, i) && used == Used(pairs)
    {
      var free := FindFree(Positions(text, base[i], |text|), used);
      if free.Some? {
        pairs := pairs + [Pair(i, free.value)];
        used := used + {free.value};
      }
    }
  }

  lemma {:induction false} PositionsHold(text: seq<Line>, line: Line, n: nat, p: nat)
    requires n <= |text| && p in Positions(text, line, n)
    ensures p < n && text[p] == line
  {
    if n > 0 && p in Positions(text, line, n - 1) {
      PositionsHold(text, line, n - 1, p);
    }
  }

  lemma {:induction false} FreeIsListed(positions: seq<nat>, used: set<nat>)
    ensures var r := FirstFree(positions, used);
      r.Some? ==> r.value in positions && r.value !in used
  {
    if positions != [] {
      FreeIsListed(positions[1..], used);
    }
  }

  /** Pairs join equal lines, in the order of the base; none is used twice. */
  predicate GoodPairs(base: seq<Line>, text: seq<Line>, pairs: seq<Pair>, n: nat)
    requires n <= |base|
  {
    && (forall k :: 0 <= k < |pairs| ==> JoinsEqual(base, text, pairs[k], n))
    && (forall j, k :: 0 <= j < k < |pairs| ==> pairs[j].inBase < pairs[k].inBase && pairs[j].inText != pairs[k].inText)
  }

  predicate JoinsEqual(base: seq<Line>, text: seq<Line>, p: Pair, n: nat)
    requires n <= |base|
  {
    p.inBase < n && p.inText < |text| && base[p.inBase] == text[p.inText]
  }

  lemma GoodPrefix(base: seq<Line>, text: seq<Line>, pairs: seq<Pair>, n: nat)
    requires GoodPairs(base, text, pairs, |base|) && n < |pairs|
    ensures GoodPairs(base, text, pairs[..n], |base|) && JoinsEqual(base, text, pairs[n], |base|)
  {
    hide JoinsEqual;
    assert forall k :: 0 <= k < n ==> pairs[..n][k] == pairs[k];
  }

  lemma GoodWithOneMore(base: seq<Line>, text: seq<Line>, pairs: seq<Pair>, p: Pair, n: nat)
    requires n < |base| && GoodPairs(base, text, pairs, n)
    requires p.inBase == n && p.inText < |text| && base[n] == text[p.inText] && p.inText !in Used(pairs)
    ensures GoodPairs(base, text, pairs, n + 1) && GoodPairs(base, text, pairs + [p], n + 1)
  {
    assert forall k :: 0 <= k < |pairs| ==> pairs[k].inText in Used(pairs);
    assert forall k :: 0 <= k < |pairs| ==> JoinsEqual(base, text, pairs[k], n);
  }

  lemma GoodForMore(base: seq<Line>, text: seq<Line>, pairs: seq<Pair>, n: nat)
    requires n < |base| && GoodPairs(base, text, pairs, n)
    ensures GoodPairs(base, text, pairs, n + 1)
  {
    assert forall k :: 0 <= k < |pairs| ==> JoinsEqual(base, text, pairs[k], n);
  }

  lemma FreeIsEqual(text: seq<Line>, line: Line, used: set<nat>)
    ensures var free := FirstFree(Positions(text, line, |text|), used);
      free.Some? ==> free.value < |text| && text[free.value] == line && free.value !in used
  {
    var positions := Positions(text, line, |text|);
    FreeIsListed(positions, used);
    hide FirstFree, Positions;
    var free := FirstFree(positions, used);
    if free.Some? {
      PositionsHold(text, line, |text|, free.value);
    }
  }

  lemma MatchedStep(base: seq<Line>, text: seq<Line>, n: nat)
    requires 0 < n <= |base|
    requires GoodPairs(base, text, Matched(base, text, n - 1), n - 1)
    ensures GoodPairs(base, text, Matched(base, text, n), n)
  {
    hide GoodPairs, Positions, FirstFree, Used;
    var before := Matched(base, text, n - 1);
    FreeIsEqual(text, base[n - 1], Used(before));
    var free := FirstFree(Positions(text, base[n - 1], |text|), Used(before));
    GoodForMore(base, text, before, n - 1);
    if free.Some? {
      GoodWithOneMore(base, text, before, Pair(n - 1, free.value), n - 1);
    }
  }

  lemma NothingIsGood(base: seq<Line>, text: seq<Line>)
    ensures GoodPairs(base, text, Matched(base, text, 0), 0)
  {
  }

  lemma {:induction false} MatchedAreGood(base: seq<Line>, text: seq<Line>, n: nat)
    requires n <= |base|
    ensures GoodPairs(base, text, Matched(base, text, n), n)
  {
    hide *;
    if n == 0 {
      NothingIsGood(base, text);
    } else {
      MatchedAreGood(base, text, n - 1);
      MatchedStep(base, text, n);
    }
  }

  lemma {:induction false} PositionsAre(text: seq<Line>, line: Line, n: nat)
    requires n <= |text|
    ensures var ps := Positions(text, line, n);
      && (forall q: nat :: q < n && text[q] == line ==> q in ps)
      && forall i, j :: 0 <= i < j < |ps| ==> ps[i] < ps[j] < n
  {
    if n > 0 {
      PositionsAre(text, line, n - 1);
      var ps := Positions(text, line, n - 1);
      forall i | 0 <= i < |ps|
        ensures ps[i] < n - 1
      {
        PositionsHold(text, line, n - 1, ps[i]);
      }
    }
  }

  lemma {:induction false} FreeIsFirst(positions: seq<nat>, used: set<nat>, q: nat)
    requires q in positions && q !in used && forall i, j :: 0 <= i < j < |positions| ==> positions[i] < positions[j]
    ensures var r := FirstFree(positions, used);
      r.Some? && r.value <= q
  {
    if positions[0] in used {
      FreeIsFirst(positions[1..], used, q);
    }
  }

  /** A line of the text equal to this line of the base: an earlier line has it, or this one has it or one before it. */
  ghost predicate Taken(pairs: seq<Pair>, b: nat, q: nat) {
    exists k :: 0 <= k < |pairs| &&
      ((pairs[k].inText == q && pairs[k].inBase < b) || (pairs[k].inBase == b && pairs[k].inText <= q))
  }

  lemma TakenByMore(pairs: seq<Pair>, p: Pair, b: nat, q: nat)
    ensures Taken(pairs, b, q) ==> Taken(pairs + [p], b, q)
    ensures p.inBase == b && p.inText <= q ==> Taken(pairs + [p], b, q)
  {
    assert forall k :: 0 <= k < |pairs| ==> (pairs + [p])[k] == pairs[k];
    assert (pairs + [p])[|pairs|] == p;
  }

  lemma TakenNow(base: seq<Line>, text: seq<Line>, n: nat, q: nat)
    requires n < |base| && q < |text| && text[q] == base[n]
    ensures Taken(Matched(base, text, n + 1), n, q)
  {
    var before, ps := Matched(base, text, n), Positions(text, base[n], |text|);
    MatchedAreGood(base, text, n);
    PositionsAre(text, base[n], |text|);
    if q in Used(before) {
      var p :| p in before && p.inText == q;
      var k :| 0 <= k < |before| && before[k] == p;
      assert JoinsEqual(base, text, before[k], n);
      assert Taken(before, n, q);
    } else {
      FreeIsFirst(ps, Used(before), q);
    }
    hide Positions, FirstFree, Used, GoodPairs, Taken;
    var free := FirstFree(ps, Used(before));
    if free.Some? {
      TakenByMore(before, Pair(n, free.value), n, q);
    }
  }

  /** With that the pairs are the first that can be had, going through the base in order. */
  lemma {:induction false} FirstIsTaken(base: seq<Line>, text: seq<Line>, n: nat)
    requires n <= |base|
    ensures GoodPairs(base, text, Matched(base, text, n), n)
    ensures forall b: nat, q: nat | b < n && q < |text| && text[q] == base[b] :: Taken(Matched(base, text, n), b, q)
  {
    hide GoodPairs, Taken, Positions, FirstFree, Used;
    MatchedAreGood(base, text, n);
    if n > 0 {
      FirstIsTaken(base, text, n - 1);
      var before := Matched(base, text, n - 1);
      var free := FirstFree(Positions(text, base[n - 1], |text|), Used(before));
      forall b: nat, q: nat | b < n && q < |text| && text[q] == base[b]
        ensures Taken(Matched(base, text, n), b, q)
      {
        if b == n - 1 {
          TakenNow(base, text, b, q);
        } else if free.Some? {
          TakenByMore(before, Pair(n - 1, free.value), b, q);
        }
      }
    }
  }

  // ---- writing the changes ----

  /** What is written so far, and the next lines to write of both texts. */
  datatype Writer = Writer(changes: seq<Change>, bi: nat, mi: nat)

  function Deletions(base: seq<Line>, from: nat, to: nat): seq<Change>
    requires to <= |base|
    decreases if from < to then to - from else 0
  {
    if from >= to then [] else [Deleted([base[from]])] + Deletions(base, from + 1, to)
  }

  function Insertions(text: seq<Line>, from: nat, to: nat): seq<Change>
    requires to <= |text|
    decreases if from < to then to - from else 0
  {
    if from >= to then [] else [Inserted([text[from]])] + Insertions(text, from + 1, to)
  }

  /** Deletions up to `baseEnd`, then insertions up to `textEnd`. */
  function AfterGap(base: seq<Line>, text: seq<Line>, w: Writer, baseEnd: nat, textEnd: nat): seq<Change>
    requires baseEnd <= |base| && textEnd <= |text|
  {
    w.changes + Deletions(base, w.bi, baseEnd) + Insertions(text, w.mi, textEnd)
  }

  function WritePair(base: seq<Line>, text: seq<Line>, w: Writer, p: Pair): Writer
    requires p.inBase < |base| && p.inText < |text|
  {
    Writer(
      AfterGap(base, text, w, p.inBase, p.inText) + [Unchanged([base[p.inBase]])],
      Max(w.bi, p.inBase) + 1,
      Max(w.mi, p.inText) + 1)
  }

  function WritePairs(base: seq<Line>, text: seq<Line>, pairs: seq<Pair>): Writer
    requires GoodPairs(base, text, pairs, |base|)
    decreases |pairs|
  {
    if pairs == [] then Writer([], 0, 0)
    else
      var last := pairs[|pairs| - 1];
      GoodPrefix(base, text, pairs, |pairs| - 1);
      WritePair(base, text, WritePairs(base, text, pairs[..|pairs| - 1]), last)
  }

  function WriteRest(base: seq<Line>, text: seq<Line>, w: Writer): seq<Change> {
    AfterGap(base, text, w, |base|, |text|)
  }

  function GreedyChanges(base: seq<Line>, text: seq<Line>): seq<Change> {
    MatchedAreGood(base, text, |base|);
    WriteRest(base, text, WritePairs(base, text, Matched(base, text, |base|)))
  }

  function LinearDiffOf(base: seq<Line>, text: seq<Line>): seq<Change> {
    Coalesced(GreedyChanges(base, text))
  }

  /** Copying the deletions of the first loop. */
  method WriteDeletions(base: seq<Line>, changes: seq<Change>, from: nat, to: nat) returns (r: seq<Change>, b: nat)
    requires to <= |base|
    ensures r == changes + Deletions(base, from, to) && b == Max(from, to)
  {
    r := changes;
    b := from;
    while b < to
      invariant from <= b <= Max(from, to)
      invariant r + Deletions(base, b, to) == changes + Deletions(base, from, to)
    {
      assert Deletions(base, b, to) == [Deleted([base[b]])] + Deletions(base, b + 1, to);
      r := r + [Deleted([base[b]])];
      b := b + 1;
    }
  }

  /** Copying the insertions of the second loop. */
  method WriteInsertions(text: seq<Line>, changes: seq<Change>, from: nat, to: nat) returns (r: seq<Change>, m: nat)
    requires to <= |text|
    ensures r == changes + Insertions(text, from, to) && m == Max(from, to)
  {
    r := changes;
    m := from;
    while m < to
      invariant from <= m <= Max(from, to)
      invariant r + Insertions(text, m, to) == changes + Insertions(text, from, to)
    {
      assert Insertions(text, m, to) == [Inserted([text[m]])] + Insertions(text, m + 1, to);
      r := r + [Inserted([text[m]])];
      m := m + 1;
    }
  }

  lemma OnePairMore(base: seq<Line>, text: seq<Line>, pairs: seq<Pair>, k: nat)
    requires GoodPairs(base, text, pairs, |base|) && k < |pairs|
    ensures JoinsEqual(base, text, pairs[k], |base|)
    ensures GoodPairs(base, text, pairs[..k], |base|) && GoodPairs(base, text, pairs[..k + 1], |base|)
    ensures WritePairs(base, text, pairs[..k + 1]) ==
            WritePair(base, text, WritePairs(base, text, pairs[..k]), pairs[k])
  {
    hide WritePair;
    GoodPrefix(base, text, pairs, k);
    if k + 1 < |pairs| {
      GoodPrefix(base, text, pairs, k + 1);
    } else {
      assert pairs[..k + 1] == pairs;
    }
    hide GoodPairs;
    assert pairs[..k + 1][..k] == pairs[..k];
  }

  method DiffLinesLinear(base: seq<Line>, text: seq<Line>) returns (changes: seq<Change>)
    ensures changes == LinearDiffOf(base, text)
  {
    var pairs := MatchLines(base, text);
    MatchedAreGood(base, text, |base|);
    changes := [];
    var bi: nat, mi: nat := 0, 0;
    for k := 0 to |pairs|
      invariant GoodPairs(base, text, pairs[..k], |base|)
      invariant Writer(changes, bi, mi) == WritePairs(base, text, pairs[..k])
    {
      hide GoodPairs, WritePairs, Deletions, Insertions;
      OnePairMore(base, text, pairs, k);
      changes, bi := WriteDeletions(base, changes, bi, pairs[k].inBase);
      changes, mi := WriteInsertions(text, changes, mi, pairs[k].inText);
      changes := changes + [Unchanged([base[pairs[k].inBase]])];
      bi := bi + 1;
      mi := mi + 1;
    }
    hide GoodPairs, WritePairs, Deletions, Insertions, Matched, Coalesced;
    assert pairs[..|pairs|] == pairs;
    changes, bi := WriteDeletions(base, changes, bi, |base|);
    changes, mi := WriteInsertions(text, changes, mi, |text|);
    changes := CoalesceChanges(changes);
  }

  // ---- what the greedy diff relates ----

  lemma {:induction false} DeletionsRelate(base: seq<Line>, from: nat, to: nat)
    requires to <= |base|
    ensures OldText(Deletions(base, from, to)) == (if from < to then base[from..to] else [])
    ensures NewText(Deletions(base, from, to)) == []
    decreases if from < to then to - from else 0
  {
    if from < to {
      DeletionsRelate(base, from + 1, to);
      var rest := Deletions(base, from + 1, to);
      assert Deletions(base, from, to) == [Deleted([base[from]])] + rest;
      assert ([Deleted([base[from]])] + rest)[1..] == rest;
      hide Deletions;
      assert base[from..to] == [base[from]] + base[from + 1..to];
    }
  }

  lemma {:induction false} InsertionsRelate(text: seq<Line>, from: nat, to: nat)
    requires to <= |text|
    ensures NewText(Insertions(text, from, to)) == (if from < to then text[from..to] else [])
    ensures OldText(Insertions(text, from, to)) == []
    decreases if from < to then to - from else 0
  {
    if from < to {
      InsertionsRelate(text, from + 1, to);
      var rest := Insertions(text, from + 1, to);
      assert Insertions(text, from, to) == [Inserted([text[from]])] + rest;
      assert ([Inserted([text[from]])] + rest)[1..] == rest;
      hide Insertions;
      assert text[from..to] == [text[from]] + text[from + 1..to];
    }
  }

  /** What deletions followed by insertions add to both texts. */
  lemma GapRelates(base: seq<Line>, text: seq<Line>, w: Writer, baseEnd: nat, textEnd: nat)
    requires baseEnd <= |base| && textEnd <= |text|
    ensures var cs := AfterGap(base, text, w, baseEnd, textEnd);
      && OldText(cs) == OldText(w.changes) + (if w.bi < baseEnd then base[w.bi..baseEnd] else [])
      && NewText(cs) == NewText(w.changes) + (if w.mi < textEnd then text[w.mi..textEnd] else [])
  {
    hide OldText, NewText, Deletions, Insertions;
    var d, e := Deletions(base, w.bi, baseEnd), Insertions(text, w.mi, textEnd);
    DeletionsRelate(base, w.bi, baseEnd);
    TextsAppend(w.changes, d);
    var cs := w.changes + d;
    assert NewText(cs) == NewText(w.changes);
    InsertionsRelate(text, w.mi, textEnd);
    TextsAppend(cs, e);
    assert OldText(cs + e) == OldText(cs);
  }

  /** Where the line kept for the `k`-th pair lands in the text the changes produce. */
  function Landing(pairs: seq<Pair>, k: nat): nat
    requires k < |pairs|
  {
    if k == 0 then pairs[0].inText else Max(Landing(pairs, k - 1) + 1, pairs[k].inText)
  }

  /** Every kept line lands on an equal line of the text. */
  predicate Lands(base: seq<Line>, text: seq<Line>, pairs: seq<Pair>) {
    forall k: nat :: k < |pairs| ==> LandsWell(base, text, pairs, k)
  }

  predicate LandsWell(base: seq<Line>, text: seq<Line>, pairs: seq<Pair>, k: nat)
    requires k < |pairs|
  {
    var l := Landing(pairs, k);
    l < |text| && pairs[k].inBase < |base| && text[l] == base[pairs[k].inBase]
  }

  lemma {:induction false} LandingOfPrefix(pairs: seq<Pair>, n: nat, k: nat)
    requires k < n <= |pairs|
    ensures Landing(pairs[..n], k) == Landing(pairs, k)
  {
    if k > 0 {
      LandingOfPrefix(pairs, n, k - 1);
    }
  }

  /** What is written for some pairs covers the base up to the last of them. */
  predicate CoversBase(base: seq<Line>, pairs: seq<Pair>, w: Writer) {
    && w.bi == (if pairs == [] then 0 else pairs[|pairs| - 1].inBase + 1) <= |base|
    && OldText(w.changes) == base[..w.bi]
  }

  /** It covers the text up to the last landing exactly if every line lands. */
  predicate CoversText(base: seq<Line>, text: seq<Line>, pairs: seq<Pair>, w: Writer) {
    && w.mi == (if pairs == [] then 0 else Landing(pairs, |pairs| - 1) + 1)
    && |NewText(w.changes)| == w.mi
    && (Lands(base, text, pairs) <==> w.mi <= |text| && NewText(w.changes) == text[..w.mi])
  }

  predicate Covers(base: seq<Line>, text: seq<Line>, pairs: seq<Pair>, w: Writer) {
    CoversBase(base, pairs, w) && CoversText(base, text, pairs, w)
  }

  lemma LandsStep(base: seq<Line>, text: seq<Line>, pairs: seq<Pair>)
    requires pairs != []
    ensures Lands(base, text, pairs) <==>
            Lands(base, text, pairs[..|pairs| - 1]) && LandsWell(base, text, pairs, |pairs| - 1)
  {
    var n := |pairs| - 1;
    forall k: nat | k < n
      ensures LandsWell(base, text, pairs, k) <==> LandsWell(base, text, pairs[..n], k)
    {
      LandingOfPrefix(pairs, n, k);
    }
  }

  /** The texts of one pair written behind what is there. */
  lemma PairRelates(base: seq<Line>, text: seq<Line>, w: Writer, p: Pair)
    requires p.inBase < |base| && p.inText < |text|
    ensures var cs := WritePair(base, text, w, p).changes;
      && OldText(cs) == OldText(w.changes) + (if w.bi < p.inBase then base[w.bi..p.inBase] else []) + [base[p.inBase]]
      && NewText(cs) == NewText(w.changes) + (if w.mi < p.inText then text[w.mi..p.inText] else []) + [base[p.inBase]]
  {
    GapRelates(base, text, w, p.inBase, p.inText);
    hide OldText, NewText, AfterGap, Kept;
    Snoc(AfterGap(base, text, w, p.inBase, p.inText), Unchanged([base[p.inBase]]));
  }

  lemma PairCoversBase(base: seq<Line>, text: seq<Line>, pairs: seq<Pair>, w: Writer)
    requires pairs != [] && GoodPairs(base, text, pairs, |base|)
    requires CoversBase(base, pairs[..|pairs| - 1], w)
    ensures JoinsEqual(base, text, pairs[|pairs| - 1], |base|)
    ensures CoversBase(base, pairs, WritePair(base, text, w, pairs[|pairs| - 1]))
  {
    var n := |pairs| - 1;
    var p := pairs[n];
    GoodPrefix(base, text, pairs, n);
    assert n > 0 ==> pairs[..n][n - 1] == pairs[n - 1] && pairs[n - 1].inBase < p.inBase;
    PairRelates(base, text, w, p);
    hide OldText, NewText, GoodPairs, AfterGap;
    assert base[..p.inBase + 1] ==
           base[..w.bi] + (if w.bi < p.inBase then base[w.bi..p.inBase] else []) + [base[p.inBase]];
  }

  lemma PairCoversText(base: seq<Line>, text: seq<Line>, pairs: seq<Pair>, w: Writer)
    requires pairs != [] && JoinsEqual(base, text, pairs[|pairs| - 1], |base|)
    requires CoversText(base, text, pairs[..|pairs| - 1], w)
    ensures CoversText(base, text, pairs, WritePair(base, text, w, pairs[|pairs| - 1]))
  {
    var n := |pairs| - 1;
    var p := pairs[n];
    if n > 0 {
      LandingOfPrefix(pairs, n, n - 1);
    }
    var l := Max(w.mi, p.inText);
    assert l == Landing(pairs, n);
    LandsStep(base, text, pairs);
    PairRelates(base, text, w, p);
    hide OldText, NewText, Landing, Lands, AfterGap;
    TextGrows(text, NewText(w.changes), w.mi, l, base[p.inBase]);
  }

  lemma PairCovers(base: seq<Line>, text: seq<Line>, pairs: seq<Pair>, w: Writer)
    requires pairs != [] && GoodPairs(base, text, pairs, |base|)
    requires Covers(base, text, pairs[..|pairs| - 1], w)
    ensures JoinsEqual(base, text, pairs[|pairs| - 1], |base|)
    ensures Covers(base, text, pairs, WritePair(base, text, w, pairs[|pairs| - 1]))
  {
    hide GoodPairs, CoversBase, CoversText, JoinsEqual, WritePair;
    PairCoversBase(base, text, pairs, w);
    PairCoversText(base, text, pairs, w);
  }

  /** A text grown by copied lines and one more is a prefix exactly when it was one and the line is the right one. */
  lemma TextGrows(text: seq<Line>, written: seq<Line>, mi: nat, l: nat, line: Line)
    requires |written| == mi <= l && (mi < l ==> l < |text|)
    ensures var more := written + (if mi < l then text[mi..l] else []) + [line];
      && |more| == l + 1
      && (l + 1 <= |text| && more == text[..l + 1]
          <==> mi <= |text| && written == text[..mi] && l < |text| && text[l] == line)
  {
    var more := written + (if mi < l then text[mi..l] else []) + [line];
    if l < |text| {
      assert more[..mi] == written && text[..l + 1][..mi] == text[..mi] && more[l] == line;
      if written == text[..mi] && text[l] == line {
        assert more == text[..l + 1];
      }
    }
  }

  lemma {:induction false} WrittenCovers(base: seq<Line>, text: seq<Line>, pairs: seq<Pair>)
    requires GoodPairs(base, text, pairs, |base|)
    ensures Covers(base, text, pairs, WritePairs(base, text, pairs))
    decreases |pairs|
  {
    hide Covers, WritePair;
    if pairs == [] {
      NothingCovers(base, text);
    } else {
      var front := pairs[..|pairs| - 1];
      GoodPrefix(base, text, pairs, |pairs| - 1);
      WrittenCovers(base, text, front);
      PairCovers(base, text, pairs, WritePairs(base, text, front));
    }
  }

  lemma NothingCovers(base: seq<Line>, text: seq<Line>)
    ensures Covers(base, text, [], Writer([], 0, 0))
  {
    assert base[..0] == [] && text[..0] == [];
  }

  /**
    * The greedy diff always starts from the base; it ends in the text exactly when every kept line lands on an
    * equal line.
    */
  lemma GreedyRelatesIff(base: seq<Line>, text: seq<Line>)
    ensures OldText(LinearDiffOf(base, text)) == base
    ensures NewText(LinearDiffOf(base, text)) == text <==> Lands(base, text, Matched(base, text, |base|))
  {
    MatchedAreGood(base, text, |base|);
    hide OldText, NewText, Matched, GoodPairs, WritePairs, Coalesced, Lands, Covers, WriteRest;
    var pairs := Matched(base, text, |base|);
    WrittenCovers(base, text, pairs);
    CoalescingKeepsTexts(GreedyChanges(base, text));
    RestCovers(base, text, pairs, WritePairs(base, text, pairs));
  }

  lemma RestCovers(base: seq<Line>, text: seq<Line>, pairs: seq<Pair>, w: Writer)
    requires Covers(base, text, pairs, w)
    ensures OldText(WriteRest(base, text, w)) == base
    ensures NewText(WriteRest(base, text, w)) == text <==> Lands(base, text, pairs)
  {
    GapRelates(base, text, w, |base|, |text|);
    hide OldText, NewText, AfterGap, Lands, Landing;
    assert base[..w.bi] + (if w.bi < |base| then base[w.bi..] else []) == base;
    WholeText(text, NewText(w.changes), w.mi);
  }

  /** Written lines and the rest of the text make the text exactly when they are its beginning. */
  lemma WholeText(text: seq<Line>, written: seq<Line>, mi: nat)
    requires |written| == mi
    ensures written + (if mi < |text| then text[mi..] else []) == text <==> mi <= |text| && written == text[..mi]
  {
    var all := written + (if mi < |text| then text[mi..] else []);
    if mi <= |text| {
      assert all[..mi] == written;
      assert text == text[..mi] + text[mi..];
    } else {
      assert |all| == mi;
    }
  }

  /** Matches that do not cross land where they were found. */
  lemma UncrossedLands(base: seq<Line>, text: seq<Line>)
    requires var pairs := Matched(base, text, |base|);
      forall j, k :: 0 <= j < k < |pairs| ==> pairs[j].inText < pairs[k].inText
    ensures Lands(base, text, Matched(base, text, |base|))
  {
    MatchedAreGood(base, text, |base|);
    var pairs := Matched(base, text, |base|);
    hide Matched;
    forall k: nat | k < |pairs|
      ensures LandsWell(base, text, pairs, k)
    {
      UncrossedLanding(pairs, k);
      assert JoinsEqual(base, text, pairs[k], |base|);
    }
  }

  lemma {:induction false} UncrossedLanding(pairs: seq<Pair>, k: nat)
    requires forall i, j :: 0 <= i < j < |pairs| ==> pairs[i].inText < pairs[j].inText
    requires k < |pairs|
    ensures Landing(pairs, k) == pairs[k].inText
  {
    if k > 0 {
      UncrossedLanding(pairs, k - 1);
    }
  }

  // ---- the choice between the methods ----

  const LCS_DP_THRESHOLD := 2000

  function DiffOf(base: seq<Line>, text: seq<Line>): seq<Change> {
    if base == [] && text == [] then []
    else if base == [] then [Inserted(text)]
    else if text == [] then [Deleted(base)]
    else if |base| <= LCS_DP_THRESHOLD && |text| <= LCS_DP_THRESHOLD then ExactDiff(base, text)
    else LinearDiffOf(base, text)
  }

  method DiffLines(base: seq<Line>, text: seq<Line>) returns (changes: seq<Change>)
    ensures changes == DiffOf(base, text)
  {
    if base == [] && text == [] {
      return [];
    }
    if base == [] {
      return [Inserted(text)];
    }
    if text == [] {
      return [Deleted(base)];
    }
    if |base| <= LCS_DP_THRESHOLD && |text| <= LCS_DP_THRESHOLD {
      changes := DiffLinesDp(base, text);
    } else {
      changes := DiffLinesLinear(base, text);
    }
  }

  /** Both texts non-empty, and one of them of more than two thousand lines. */
  predicate IsLarge(base: seq<Line>, text: seq<Line>) {
    base != [] && text != [] && (|base| > 2000 || |text| > 2000)
  }

  /** A diff always starts from the base, and ends in the text unless a large text's matches land badly. */
  lemma DiffRelatesIff(base: seq<Line>, text: seq<Line>)
    ensures OldText(DiffOf(base, text)) == base
    ensures NewText(DiffOf(base, text)) == text <==>
            !IsLarge(base, text) || Lands(base, text, Matched(base, text, |base|))
  {
    if IsLarge(base, text) {
      hide OldText, NewText, Matched, Lands;
      GreedyRelatesIff(base, text);
    } else if base != [] && text != [] {
      hide OldText, NewText;
      ExactDiffIsBest(base, text, []);
    }
  }

  lemma {:induction false} FirstPosition(text: seq<Line>, line: Line, n: nat, p: nat)
    requires p < n <= |text| && text[p] == line && line !in text[..p]
    ensures Positions(text, line, n) != [] && Positions(text, line, n)[0] == p
  {
    if p < n - 1 {
      FirstPosition(text, line, n - 1, p);
    } else {
      NoPosition(text, line, p);
    }
  }

  lemma {:induction false} NoPosition(text: seq<Line>, line: Line, n: nat)
    requires n <= |text| && line !in text[..n]
    ensures Positions(text, line, n) == []
  {
    if n > 0 {
      assert text[..n] == text[..n - 1] + [text[n - 1]];
      NoPosition(text, line, n - 1);
    }
  }

  lemma OneMoreMatched(base: seq<Line>, text: seq<Line>, n: nat)
    requires 0 < n <= |base|
    ensures Matched(base, text, n - 1) <= Matched(base, text, n)
  {
    hide Positions, FirstFree, Used;
    var before := Matched(base, text, n - 1);
    var free := FirstFree(Positions(text, base[n - 1], |text|), Used(before));
    assert Matched(base, text, n) == if free.Some? then before + [Pair(n - 1, free.value)] else before;
  }

  lemma {:induction false} MatchedGrows(base: seq<Line>, text: seq<Line>, m: nat, n: nat)
    requires m <= n <= |base|
    ensures Matched(base, text, m) <= Matched(base, text, n)
    decreases n
  {
    hide Matched;
    if m < n {
      MatchedGrows(base, text, m, n - 1);
      OneMoreMatched(base, text, n);
    }
  }

  /** The first two lines changed places: each is matched with its new place. */
  lemma CrossedMatches(base: seq<Line>, text: seq<Line>)
    requires |base| >= 2 && |text| >= 2 && base[0] == text[1] && base[1] == text[0] && base[0] != base[1]
    ensures Matched(base, text, 2) == [Pair(0, 1), Pair(1, 0)]
  {
    FirstPosition(text, base[0], |text|, 1);
    FirstPosition(text, base[1], |text|, 0);
    hide Positions;
    assert Matched(base, text, 0) == [];
    assert Matched(base, text, 1) == [Pair(0, 1)];
  }

  /** Where the lines behind start otherwise, the second of the two lands on a line that is not its own. */
  lemma CrossedLandsBadly(base: seq<Line>, text: seq<Line>)
    requires |base| >= 2 && |text| >= 3 && base[0] == text[1] && base[1] == text[0] && base[0] != base[1]
    requires text[2] != base[1]
    ensures !Lands(base, text, Matched(base, text, |base|))
  {
    CrossedMatches(base, text);
    MatchedGrows(base, text, 2, |base|);
    hide Matched;
    var pairs := Matched(base, text, |base|);
    assert pairs[0] == Matched(base, text, 2)[0] && pairs[1] == Matched(base, text, 2)[1];
    assert Landing(pairs, 1) == 2;
    assert !LandsWell(base, text, pairs, 1);
  }

  /** A large text whose first two lines changed places: the diff ends in a text that is not the modified one. */
  lemma CrossedLinesAreLost(a: Line, b: Line, rest: seq<Line>)
    requires a != b && |rest| >= 1999 && rest[0] != b
    ensures NewText(DiffOf([a, b] + rest, [b, a] + rest)) != [b, a] + rest
  {
    hide Lands, Matched, NewText, OldText;
    CrossedLandsBadly([a, b] + rest, [b, a] + rest);
    DiffRelatesIff([a, b] + rest, [b, a] + rest);
  }

  // ---- the shape of the greedy diff ----

  predicate AllDeleted(cs: seq<Change>) {
    forall i :: 0 <= i < |cs| ==> cs[i].Deleted?
  }

  predicate AllInserted(cs: seq<Change>) {
    forall i :: 0 <= i < |cs| ==> cs[i].Inserted?
  }

  lemma {:induction false} DeletionsShape(base: seq<Line>, from: nat, to: nat)
    requires to <= |base|
    ensures NoEmpty(Deletions(base, from, to)) && AllDeleted(Deletions(base, from, to))
    decreases if from < to then to - from else 0
  {
    if from < to {
      DeletionsShape(base, from + 1, to);
      var rest := Deletions(base, from + 1, to);
      assert Deletions(base, from, to) == [Deleted([base[from]])] + rest;
      hide Deletions;
    }
  }

  lemma {:induction false} InsertionsShape(text: seq<Line>, from: nat, to: nat)
    requires to <= |text|
    ensures NoEmpty(Insertions(text, from, to)) && AllInserted(Insertions(text, from, to))
    decreases if from < to then to - from else 0
  {
    if from < to {
      InsertionsShape(text, from + 1, to);
      var rest := Insertions(text, from + 1, to);
      assert Insertions(text, from, to) == [Inserted([text[from]])] + rest;
      hide Insertions;
    }
  }

  /** Deletions and then insertions behind a list that does not end in an insertion. */
  lemma GapShape(base: seq<Line>, text: seq<Line>, w: Writer, baseEnd: nat, textEnd: nat)
    requires baseEnd <= |base| && textEnd <= |text|
    requires NoInsertBeforeDelete(w.changes) && NoEmpty(w.changes)
    requires w.changes != [] ==> !w.changes[|w.changes| - 1].Inserted?
    ensures NoInsertBeforeDelete(AfterGap(base, text, w, baseEnd, textEnd))
    ensures NoEmpty(AfterGap(base, text, w, baseEnd, textEnd))
  {
    DeletionsShape(base, w.bi, baseEnd);
    InsertionsShape(text, w.mi, textEnd);
    hide Deletions, Insertions;
  }

  lemma {:induction false} WrittenShape(base: seq<Line>, text: seq<Line>, pairs: seq<Pair>)
    requires GoodPairs(base, text, pairs, |base|)
    ensures var cs := WritePairs(base, text, pairs).changes;
      NoInsertBeforeDelete(cs) && NoEmpty(cs) && (cs != [] ==> !cs[|cs| - 1].Inserted?)
    decreases |pairs|
  {
    if pairs != [] {
      hide Deletions, Insertions;
      var front, p := pairs[..|pairs| - 1], pairs[|pairs| - 1];
      GoodPrefix(base, text, pairs, |pairs| - 1);
      WrittenShape(base, text, front);
      var w := WritePairs(base, text, front);
      GapShape(base, text, w, p.inBase, p.inText);
      hide AfterGap;
      var cs := AfterGap(base, text, w, p.inBase, p.inText);
      assert WritePairs(base, text, pairs).changes == cs + [Unchanged([base[p.inBase]])];
    }
  }

  /** Any diff: kinds alternate, no insertion stands before a deletion, and no change is empty. */
  lemma DiffShape(base: seq<Line>, text: seq<Line>)
    ensures WellShaped(DiffOf(base, text)) && NoEmpty(DiffOf(base, text))
  {
    if IsLarge(base, text) {
      MatchedAreGood(base, text, |base|);
      var pairs := Matched(base, text, |base|);
      WrittenShape(base, text, pairs);
      var w := WritePairs(base, text, pairs);
      GapShape(base, text, w, |base|, |text|);
      CoalescedShape(GreedyChanges(base, text));
      CoalescedNoEmpty(GreedyChanges(base, text));
      hide Matched, WritePairs, Deletions, Insertions, Coalesced, WellShaped, NoEmpty;
    } else if base != [] && text != [] {
      hide WellShaped, NoEmpty;
      ExactDiffIsBest(base, text, []);
    }
  }
}
