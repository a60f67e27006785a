/** What conflict blocks hold: resolving them to one side gives the merge with that side's actions. */
module LineConflicts {
  import opened Numbers
  import opened LineChanges
  import opened LcsDiff
  import opened LinearDiff
  import opened ChangeMaps
  import opened LineMerge
  import opened LineMergeLaws

  // ---- resolving ----

  const SEPARATOR: Line := "======="

  function Opening(labels: Labels): Line {
    "<<<<<<< " + labels.ours
  }

  function Closing(labels: Labels): Line {
    ">>>>>>> " + labels.theirs
  }

  predicate NoMarker(labels: Labels, lines: seq<Line>) {
    Opening(labels) !in lines && SEPARATOR !in lines && Closing(labels) !in lines
  }

  /** The lines before the first `stop`, or all of them. */
  function UpTo(lines: seq<Line>, stop: Line): (r: seq<Line>)
    ensures r <= lines && stop !in r && (|r| < |lines| ==> lines[|r|] == stop)
  {
    if lines == [] || lines[0] == stop then [] else [lines[0]] + UpTo(lines[1..], stop)
  }

  function Behind(lines: seq<Line>, n: nat): seq<Line> {
    if n < |lines| then lines[n + 1..] else []
  }

  /** Each conflict replaced by what stands between its first two lines of markers, or between its last two. */
  function Resolved(labels: Labels, lines: seq<Line>, ours: bool): seq<Line>
    decreases |lines|
  {
    if lines == [] then []
    else if lines[0] != Opening(labels) then [lines[0]] + Resolved(labels, lines[1..], ours)
    else
      var first := UpTo(lines[1..], SEPARATOR);
      var rest := Behind(lines[1..], |first|);
      var second := UpTo(rest, Closing(labels));
      (if ours then first else second) + Resolved(labels, Behind(rest, |second|), ours)
  }

  lemma {:induction false} UpToIs(lines: seq<Line>, stop: Line, rest: seq<Line>)
    requires stop !in lines
    ensures UpTo(lines + [stop] + rest, stop) == lines
  {
    if lines == [] {
      assert lines + [stop] + rest == [stop] + rest;
    } else {
      assert (lines + [stop] + rest)[1..] == lines[1..] + [stop] + rest;
      UpToIs(lines[1..], stop, rest);
    }
  }

  lemma {:induction false} PlainLinesStay(labels: Labels, lines: seq<Line>, rest: seq<Line>, ours: bool)
    requires Opening(labels) !in lines
    ensures Resolved(labels, lines + rest, ours) == lines + Resolved(labels, rest, ours)
  {
    if lines == [] {
      assert lines + rest == rest;
    } else {
      hide UpTo, Behind;
      assert (lines + rest)[1..] == lines[1..] + rest;
      PlainLinesStay(labels, lines[1..], rest, ours);
    }
  }

  lemma BlockResolves(labels: Labels, x: seq<Line>, y: seq<Line>, rest: seq<Line>, ours: bool)
    requires NoMarker(labels, x) && NoMarker(labels, y)
    ensures Resolved(labels, [Opening(labels)] + x + [SEPARATOR] + y + [Closing(labels)] + rest, ours) ==
            (if ours then x else y) + Resolved(labels, rest, ours)
  {
    var close := Closing(labels);
    var behind := y + [close] + rest;
    var inner := x + [SEPARATOR] + behind;
    var all := [Opening(labels)] + x + [SEPARATOR] + y + [close] + rest;
    assert all[0] == Opening(labels) && all[1..] == inner;
    UpToIs(x, SEPARATOR, behind);
    UpToIs(y, close, rest);
    assert Behind(inner, |x|) == behind;
    assert Behind(behind, |y|) == rest;
  }

  // ---- taking one side at every disagreement ----

  /** The action with the same lines that deletes `n` lines. */
  function Deleting(x: Action, n: nat): Action {
    if n == 0 then Insert(Out(x)) else Replace(n, Out(x))
  }

  /** Where the sides disagree, this side's lines in place of all that either side deletes. */
  function Taken(a: ActionMap, b: ActionMap): ActionMap {
    map k | k in a :: if Disagree(a, b, k) then Deleting(a[k], Max(Advance(a[k]), Advance(b[k]))) else a[k]
  }

  /** Without the actions at which the sides disagree. */
  function Given(a: ActionMap, b: ActionMap): ActionMap {
    map k | k in a && !Disagree(a, b, k) :: a[k]
  }

  /** The merge in which one side's action is taken at each disagreement. */
  function MergeTaking(labels: Labels, base: seq<Line>, a: ActionMap, b: ActionMap, i: nat, ours: bool): MergeOutput {
    if ours then MergeFrom(labels, base, Taken(a, b), Given(b, a), i)
    else MergeFrom(labels, base, Given(a, b), Taken(b, a), i)
  }

  function TurnTaking(labels: Labels, a: ActionMap, b: ActionMap, k: nat, ours: bool): Turn {
    if ours then TurnAt(labels, At(Taken(a, b), k), At(Given(b, a), k))
    else TurnAt(labels, At(Given(a, b), k), At(Taken(b, a), k))
  }

  ghost predicate NoMarkerInMap(labels: Labels, m: ActionMap) {
    forall k :: k in m ==> NoMarker(labels, Out(m[k]))
  }

  /** One turn, and the same turn with one side taken. */
  lemma TurnResolves(labels: Labels, a: ActionMap, b: ActionMap, k: nat, rest: seq<Line>, ours: bool)
    requires NoMarkerInMap(labels, a) && NoMarkerInMap(labels, b)
    ensures var t, u := TurnAt(labels, At(a, k), At(b, k)), TurnTaking(labels, a, b, k, ours);
      && u.advance == t.advance && u.conflicts == 0
      && Resolved(labels, t.lines + rest, ours) == u.lines + Resolved(labels, rest, ours)
  {
    if Disagree(a, b, k) {
      BlockResolves(labels, Out(a[k]), Out(b[k]), rest, ours);
      hide Resolved;
      assert TurnAt(labels, At(a, k), At(b, k)).lines ==
             [Opening(labels)] + Out(a[k]) + [SEPARATOR] + Out(b[k]) + [Closing(labels)];
    } else {
      hide Resolved, Block;
      PlainLinesStay(labels, TurnAt(labels, At(a, k), At(b, k)).lines, rest, ours);
    }
  }

  lemma CopiedResolves(labels: Labels, line: Line, rest: seq<Line>, ours: bool)
    requires line != Opening(labels)
    ensures Resolved(labels, [line] + rest, ours) == [line] + Resolved(labels, rest, ours)
  {
    PlainLinesStay(labels, [line], rest, ours);
  }

  /** Resolved to one side, the merge from line `i` on is the one that takes this side's actions. */
  predicate ResolvesAt(labels: Labels, base: seq<Line>, a: ActionMap, b: ActionMap, i: nat, ours: bool) {
    && MergeTaking(labels, base, a, b, i, ours).IsClean()
    && Resolved(labels, MergeFrom(labels, base, a, b, i).lines, ours) == MergeTaking(labels, base, a, b, i, ours).lines
  }

  lemma TrailingResolves(labels: Labels, base: seq<Line>, a: ActionMap, b: ActionMap, i: nat, ours: bool)
    requires NoMarkerInMap(labels, a) && NoMarkerInMap(labels, b) && i >= |base|
    ensures ResolvesAt(labels, base, a, b, i, ours)
  {
    TurnResolves(labels, a, b, |base|, [], ours);
    hide Taken, Given, TurnAt;
    var t := TurnAt(labels, At(a, |base|), At(b, |base|));
    assert t.lines + [] == t.lines;
  }

  lemma MergeSteps(labels: Labels, base: seq<Line>, a: ActionMap, b: ActionMap, i: nat)
    requires i < |base|
    ensures var t := TurnAt(labels, At(a, i), At(b, i));
      MergeFrom(labels, base, a, b, i).lines ==
        (if t.advance == 0 then t.lines + ([base[i]] + MergeFrom(labels, base, a, b, i + 1).lines)
         else t.lines + MergeFrom(labels, base, a, b, i + t.advance).lines)
    ensures var t := TurnAt(labels, At(a, i), At(b, i));
      MergeFrom(labels, base, a, b, i).conflicts ==
        t.conflicts + MergeFrom(labels, base, a, b, if t.advance == 0 then i + 1 else i + t.advance).conflicts
  {
    hide TurnAt;
  }

  lemma StepResolves(labels: Labels, base: seq<Line>, a: ActionMap, b: ActionMap, i: nat, ours: bool)
    requires NoMarkerInMap(labels, a) && NoMarkerInMap(labels, b) && i < |base| && base[i] != Opening(labels)
    requires var t := TurnAt(labels, At(a, i), At(b, i));
      ResolvesAt(labels, base, a, b, if t.advance == 0 then i + 1 else i + t.advance, ours)
    ensures ResolvesAt(labels, base, a, b, i, ours)
  {
    hide Taken, Given, TurnAt, MergeFrom, Resolved, NoMarkerInMap;
    var t := TurnAt(labels, At(a, i), At(b, i));
    MergeSteps(labels, base, a, b, i);
    MergeSteps(labels, base, Taken(a, b), Given(b, a), i);
    MergeSteps(labels, base, Given(a, b), Taken(b, a), i);
    if t.advance == 0 {
      var rest := MergeFrom(labels, base, a, b, i + 1).lines;
      TurnResolves(labels, a, b, i, [base[i]] + rest, ours);
      CopiedResolves(labels, base[i], rest, ours);
    } else {
      TurnResolves(labels, a, b, i, MergeFrom(labels, base, a, b, i + t.advance).lines, ours);
    }
  }

  /**
   * Resolving every conflict to the lines under our label gives the merge that takes our action wherever the sides
   * disagree, and resolving to those above their label gives the one that takes theirs.
   */
  lemma {:induction false} MergeResolves(
      labels: Labels, base: seq<Line>, a: ActionMap, b: ActionMap, i: nat, ours: bool)
    requires NoMarkerInMap(labels, a) && NoMarkerInMap(labels, b) && Opening(labels) !in base
    ensures ResolvesAt(labels, base, a, b, i, ours)
    decreases |base| - i
  {
    hide ResolvesAt, TurnAt, NoMarkerInMap;
    if i >= |base| {
      TrailingResolves(labels, base, a, b, i, ours);
    } else {
      var t := TurnAt(labels, At(a, i), At(b, i));
      MergeResolves(labels, base, a, b, if t.advance == 0 then i + 1 else i + t.advance, ours);
      assert base[i] in base;
      StepResolves(labels, base, a, b, i, ours);
    }
  }

  // ---- for texts ----

  predicate AllIn(lines: seq<Line>, text: seq<Line>) {
    forall l :: l in lines ==> l in text
  }

  lemma GapIn(base: seq<Line>, text: seq<Line>, w: Writer, baseEnd: nat, textEnd: nat)
    requires baseEnd <= |base| && textEnd <= |text| && AllIn(NewText(w.changes), text)
    ensures AllIn(NewText(AfterGap(base, text, w, baseEnd, textEnd)), text)
  {
    GapRelates(base, text, w, baseEnd, textEnd);
    hide AfterGap, NewText, OldText;
  }

  lemma PairIn(base: seq<Line>, text: seq<Line>, w: Writer, p: Pair)
    requires JoinsEqual(base, text, p, |base|) && AllIn(NewText(w.changes), text)
    ensures AllIn(NewText(WritePair(base, text, w, p).changes), text)
  {
    PairRelates(base, text, w, p);
    hide WritePair, NewText, OldText;
    assert text[p.inText] in text;
  }

  lemma {:induction false} WrittenIn(base: seq<Line>, text: seq<Line>, pairs: seq<Pair>)
    requires GoodPairs(base, text, pairs, |base|)
    ensures AllIn(NewText(WritePairs(base, text, pairs).changes), text)
    decreases |pairs|
  {
    hide WritePair, AllIn;
    if pairs == [] {
      NothingIn(text);
    } else {
      GoodPrefix(base, text, pairs, |pairs| - 1);
      WrittenIn(base, text, pairs[..|pairs| - 1]);
      PairIn(base, text, WritePairs(base, text, pairs[..|pairs| - 1]), pairs[|pairs| - 1]);
    }
  }

  lemma NothingIn(text: seq<Line>)
    ensures AllIn(NewText([]), text)
  {
  }

  /** Whatever a diff writes stands in the modified text, also where it does not lead to that text. */
  lemma DiffWritesLinesOf(base: seq<Line>, text: seq<Line>)
    ensures AllIn(NewText(DiffOf(base, text)), text)
  {
    if IsLarge(base, text) {
      MatchedAreGood(base, text, |base|);
      hide Matched, GoodPairs, WritePairs, AllIn, NewText, OldText, Coalesced;
      var pairs := Matched(base, text, |base|);
      WrittenIn(base, text, pairs);
      GapIn(base, text, WritePairs(base, text, pairs), |base|, |text|);
      CoalescingKeepsTexts(GreedyChanges(base, text));
    } else {
      hide NewText, OldText;
      DiffRelatesIff(base, text);
    }
  }

  /** In order, every action is replayed, and its lines are written. */
  lemma {:induction false} LinesAreReplayed(base: seq<Line>, m: ActionMap, i: nat, k: nat)
    requires InOrder(m, |base|) && i <= k && k in m && i <= |base|
    requires forall l :: l in m && l < i ==> l + Advance(m[l]) <= i
    ensures AllIn(Out(m[k]), Replay(base, m, i))
    decreases |base| - i
  {
    if i < |base| && k != i {
      assert i in m ==> i + Advance(m[i]) <= k;
      if i in m && Advance(m[i]) > 0 {
        LinesAreReplayed(base, m, i + Advance(m[i]), k);
      } else {
        LinesAreReplayed(base, m, i + 1, k);
      }
    }
  }

  /** The actions of a diff write lines of the modified text. */
  lemma EditsWriteLinesOf(labels: Labels, base: seq<Line>, text: seq<Line>)
    requires NoMarker(labels, text)
    ensures NoMarkerInMap(labels, EditsTo(base, text))
  {
    DiffInOrder(base, text);
    DiffWritesLinesOf(base, text);
    hide DiffOf, ChangeMap, InOrder, Replay, NewText;
    var m := EditsTo(base, text);
    forall k | k in m
      ensures NoMarker(labels, Out(m[k]))
    {
      OrderIsBelow(m, |base|, k);
      LinesAreReplayed(base, m, 0, k);
    }
  }

  lemma OrderIsBelow(m: ActionMap, n: nat, k: nat)
    requires InOrder(m, n) && k in m
    ensures k <= n
  {
  }

  /** The merge of two texts in which one side's change is taken at every disagreement. */
  function TextTaking(labels: Labels, base: seq<Line>, ours: seq<Line>, theirs: seq<Line>, side: bool): seq<Line> {
    MergeTaking(labels, base, EditsTo(base, ours), EditsTo(base, theirs), 0, side).lines
  }

  /** For all texts without lines of markers: what a resolved merge holds. */
  lemma MergedResolves(labels: Labels, base: seq<Line>, ours: seq<Line>, theirs: seq<Line>, side: bool)
    requires NoMarker(labels, base) && NoMarker(labels, ours) && NoMarker(labels, theirs)
    requires base != ours && base != theirs && ours != theirs
    ensures Resolved(labels, Merged(labels, base, ours, theirs).lines, side) ==
            TextTaking(labels, base, ours, theirs, side)
  {
    hide MergeFrom, EditsTo, Resolved, NoMarkerInMap, Taken, Given;
    EditsWriteLinesOf(labels, base, ours);
    EditsWriteLinesOf(labels, base, theirs);
    MergedIsMergeFrom(labels, base, ours, theirs);
    MergeResolves(labels, base, EditsTo(base, ours), EditsTo(base, theirs), 0, side);
  }

  lemma MergedIsMergeFrom(labels: Labels, base: seq<Line>, ours: seq<Line>, theirs: seq<Line>)
    requires base != ours && base != theirs && ours != theirs
    ensures Merged(labels, base, ours, theirs) ==
            MergeFrom(labels, base, EditsTo(base, ours), EditsTo(base, theirs), 0)
  {
    hide MergeFrom;
  }

  // ---- conflicts written out ----

  /** One line changed differently by both sides. */
  lemma OneLineConflict(labels: Labels, p: Line, x: Line, y: Line)
    requires p != x && p != y && x != y
    ensures Merged(labels, [p], [x], [y]) == MergeOutput(
      ["<<<<<<< " + labels.ours, x, "=======", y, ">>>>>>> " + labels.theirs], 0, 1)
  {
    ReplaceEdits(x, p);
    ReplaceEdits(y, p);
    Singles(p, x, y);
    hide ChangeMap, DiffOf;
    var a, b := map[0 := Replace(1, [x])], map[0 := Replace(1, [y])];
    assert MergeFrom(labels, [p], a, b, 1) == MergeOutput([], 0, 0);
  }

  lemma Singles(p: Line, x: Line, y: Line)
    requires p != x && p != y && x != y
    ensures [p] != [x] && [p] != [y] && [x] != [y]
  {
    assert [p][0] == p && [x][0] == x && [y][0] == y;
  }

  lemma AppendEdits(p: Line, x: Line)
    requires p != x
    ensures EditsTo([p], [p, x]) == map[1 := Insert([x])]
  {
    var base, text := [p], [p, x];
    hide Coalesced, AddChanges;
    assert Walk(base, text, 0, 0) == [];
    assert Walk(base, text, 1, 1) == [Unchanged([p])];
    var w := [Unchanged([p]), Inserted([x])];
    assert Walk(base, text, 1, 2) == w;
    hide Walk, Lcs;
    ShortMap(w);
  }

  /** Different lines added by both sides behind the last line. */
  lemma TrailingConflict(labels: Labels, p: Line, x: Line, y: Line)
    requires p != x && p != y && x != y
    ensures Merged(labels, [p], [p, x], [p, y]) == MergeOutput(
      [p, "<<<<<<< " + labels.ours, x, "=======", y, ">>>>>>> " + labels.theirs], 0, 1)
  {
    AppendEdits(p, x);
    AppendEdits(p, y);
    hide ChangeMap, DiffOf;
    var a, b := map[1 := Insert([x])], map[1 := Insert([y])];
    assert [p, x][1] != [p, y][1];
    assert MergeFrom(labels, [p], a, b, 1) == MergeOutput(
      ["<<<<<<< " + labels.ours, x, "=======", y, ">>>>>>> " + labels.theirs], 0, 1);
  }
}
