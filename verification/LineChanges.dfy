/** Lists of line changes: the two texts they relate, and the zero-context hunks shown for them. */
module LineChanges {

  type Line = string

  datatype Change =
    | Unchanged(lines: seq<Line>)
    | Deleted(lines: seq<Line>)
    | Inserted(lines: seq<Line>)

  /** The text before the changes. */
  function OldText(cs: seq<Change>): seq<Line> {
    if cs == [] then [] else (if cs[0].Inserted? then [] else cs[0].lines) + OldText(cs[1..])
  }

  /** The text after them. */
  function NewText(cs: seq<Change>): seq<Line> {
    if cs == [] then [] else (if cs[0].Deleted? then [] else cs[0].lines) + NewText(cs[1..])
  }

  lemma {:induction false} TextsAppend(a: seq<Change>, b: seq<Change>)
    ensures OldText(a + b) == OldText(a) + OldText(b)
    ensures NewText(a + b) == NewText(a) + NewText(b)
  {
    if a == [] {
      assert a + b == b;
    } else {
      assert (a + b)[1..] == a[1..] + b;
      TextsAppend(a[1..], b);
    }
  }

  // ---- hunks ----

  datatype Marked = Marked(prefix: char, text: Line)

  datatype Hunk = Hunk(oldStart: nat, oldCount: nat, newStart: nat, newCount: nat, lines: seq<Marked>)

  function Mark(prefix: char, lines: seq<Line>): seq<Marked> {
    seq(|lines|, i requires 0 <= i < |lines| => Marked(prefix, lines[i]))
  }

  /** The lines of a hunk: deletions with a minus, insertions with a plus. */
  function MarkedLines(run: seq<Change>): seq<Marked> {
    if run == [] then []
    else Mark(if run[0].Deleted? then '-' else '+', run[0].lines) + MarkedLines(run[1..])
  }

  function RunLength(cs: seq<Change>): (n: nat)
    ensures n <= |cs|
    ensures forall i :: 0 <= i < n ==> !cs[i].Unchanged?
    ensures n < |cs| ==> cs[n].Unchanged?
  {
    if cs == [] || cs[0].Unchanged? then 0 else 1 + RunLength(cs[1..])
  }

  function HunkOf(run: seq<Change>, oldLine: nat, newLine: nat): Hunk {
    Hunk(oldLine, |OldText(run)|, newLine, |NewText(run)|, MarkedLines(run))
  }

  /** One hunk for each run of changes, numbered by the lines before it. */
  function HunksOf(cs: seq<Change>, oldLine: nat, newLine: nat): seq<Hunk>
    decreases |cs|
  {
    if cs == [] then []
    else if cs[0].Unchanged? then HunksOf(cs[1..], oldLine + |cs[0].lines|, newLine + |cs[0].lines|)
    else
      var n := RunLength(cs);
      var h := HunkOf(cs[..n], oldLine, newLine);
      [h] + HunksOf(cs[n..], oldLine + h.oldCount, newLine + h.newCount)
  }

  lemma {:induction false} MarkedLinesAppend(run: seq<Change>, c: Change)
    ensures MarkedLines(run + [c]) == MarkedLines(run) + Mark(if c.Deleted? then '-' else '+', c.lines)
    decreases |run|
  {
    if run == [] {
      assert run + [c] == [c];
    } else {
      assert (run + [c])[1..] == run[1..] + [c];
      MarkedLinesAppend(run[1..], c);
    }
  }

  method AppendMarked(lines: seq<Marked>, prefix: char, added: seq<Line>) returns (r: seq<Marked>, count: nat)
    ensures r == lines + Mark(prefix, added) && count == |added|
  {
    r := lines;
    count := 0;
    while count < |added|
      invariant count <= |added|
      invariant r == lines + Mark(prefix, added[..count])
    {
      r := r + [Marked(prefix, added[count])];
      count := count + 1;
    }
    assert added[..|added|] == added;
  }

  lemma RunGrows(run: seq<Change>, c: Change)
    requires !c.Unchanged?
    ensures OldText(run + [c]) == OldText(run) + (if c.Deleted? then c.lines else [])
    ensures NewText(run + [c]) == NewText(run) + (if c.Deleted? then [] else c.lines)
    ensures MarkedLines(run + [c]) == MarkedLines(run) + Mark(if c.Deleted? then '-' else '+', c.lines)
  {
    TextsAppend(run, [c]);
    MarkedLinesAppend(run, c);
    assert [c][1..] == [];
  }

  lemma {:induction false} RunLengthIs(cs: seq<Change>, n: nat)
    requires n <= |cs| && (forall i :: 0 <= i < n ==> !cs[i].Unchanged?)
    requires n < |cs| ==> cs[n].Unchanged?
    ensures RunLength(cs) == n
  {
  }

  /** The loop over one run: its hunk, and the index behind it. */
  method BuildHunk(cs: seq<Change>, start: nat, oldLine: nat, newLine: nat) returns (h: Hunk, i: nat)
    requires start < |cs| && !cs[start].Unchanged?
    ensures start < i <= |cs| && i - start == RunLength(cs[start..])
    ensures h == HunkOf(cs[start..i], oldLine, newLine)
  {
    hide OldText, NewText, MarkedLines;
    var oldCount, newCount := 0, 0;
    var lines := [];
    i := start;
    RunStarts();
    assert cs[start..start] == [];
    while i < |cs| && !cs[i].Unchanged?
      invariant start <= i <= |cs|
      invariant forall k :: start <= k < i ==> !cs[k].Unchanged?
      invariant oldCount == |OldText(cs[start..i])| && newCount == |NewText(cs[start..i])|
      invariant lines == MarkedLines(cs[start..i])
    {
      assert cs[start..i + 1] == cs[start..i] + [cs[i]];
      RunGrows(cs[start..i], cs[i]);
      var count;
      if cs[i].Deleted? {
        lines, count := AppendMarked(lines, '-', cs[i].lines);
        oldCount := oldCount + count;
      } else {
        lines, count := AppendMarked(lines, '+', cs[i].lines);
        newCount := newCount + count;
      }
      i := i + 1;
    }
    RunLengthIs(cs[start..], i - start);
    h := Hunk(oldLine, oldCount, newLine, newCount, lines);
  }

  lemma RunStarts()
    ensures OldText([]) == [] && NewText([]) == [] && MarkedLines([]) == []
  {
  }

  lemma HunksSkip(cs: seq<Change>, oldLine: nat, newLine: nat)
    requires cs != [] && cs[0].Unchanged?
    ensures HunksOf(cs, oldLine, newLine) == HunksOf(cs[1..], oldLine + |cs[0].lines|, newLine + |cs[0].lines|)
  {
  }

  lemma HunksRun(cs: seq<Change>, oldLine: nat, newLine: nat, n: nat)
    requires cs != [] && !cs[0].Unchanged? && n == RunLength(cs)
    ensures n > 0
    ensures HunksOf(cs, oldLine, newLine) ==
            [HunkOf(cs[..n], oldLine, newLine)]
            + HunksOf(cs[n..], oldLine + |OldText(cs[..n])|, newLine + |NewText(cs[..n])|)
  {
    hide OldText, NewText, MarkedLines;
  }

  /** What the loop has left to do. */
  predicate Continues(cs: seq<Change>, i: nat, oldLine: nat, newLine: nat, hunks: seq<Hunk>) {
    i <= |cs| && hunks + HunksOf(cs[i..], oldLine, newLine) == HunksOf(cs, 1, 1)
  }

  lemma ContinuesBehindCopy(cs: seq<Change>, i: nat, oldLine: nat, newLine: nat, hunks: seq<Hunk>)
    requires i < |cs| && cs[i].Unchanged? && Continues(cs, i, oldLine, newLine, hunks)
    ensures Continues(cs, i + 1, oldLine + |cs[i].lines|, newLine + |cs[i].lines|, hunks)
  {
    hide HunksOf;
    HunksSkip(cs[i..], oldLine, newLine);
    assert cs[i..][1..] == cs[i + 1..];
  }

  lemma ContinuesBehindRun(cs: seq<Change>, i: nat, oldLine: nat, newLine: nat, hunks: seq<Hunk>, next: nat)
    requires i < next <= |cs| && !cs[i].Unchanged? && next - i == RunLength(cs[i..])
    requires Continues(cs, i, oldLine, newLine, hunks)
    ensures var h := HunkOf(cs[i..next], oldLine, newLine);
      Continues(cs, next, oldLine + h.oldCount, newLine + h.newCount, hunks + [h])
  {
    hide HunksOf, RunLength, OldText, NewText, MarkedLines;
    HunksRun(cs[i..], oldLine, newLine, next - i);
    assert cs[i..][..next - i] == cs[i..next] && cs[i..][next - i..] == cs[next..];
    var h := HunkOf(cs[i..next], oldLine, newLine);
    var rest := HunksOf(cs[next..], oldLine + h.oldCount, newLine + h.newCount);
    assert (hunks + [h]) + rest == hunks + ([h] + rest);
  }

  method BuildHunks(cs: seq<Change>) returns (hunks: seq<Hunk>)
    ensures hunks == HunksOf(cs, 1, 1)
  {
    hunks := [];
    var oldLine: nat, newLine: nat := 1, 1;
    var i := 0;
    assert cs[0..] == cs;
    while i < |cs|
      invariant 0 <= i <= |cs|
      invariant Continues(cs, i, oldLine, newLine, hunks)
    {
      hide Continues, RunLength, HunkOf;
      if cs[i].Unchanged? {
        ContinuesBehindCopy(cs, i, oldLine, newLine, hunks);
        oldLine := oldLine + |cs[i].lines|;
        newLine := newLine + |cs[i].lines|;
        i := i + 1;
      } else {
        var h, next := BuildHunk(cs, i, oldLine, newLine);
        ContinuesBehindRun(cs, i, oldLine, newLine, hunks, next);
        hunks := hunks + [h];
        oldLine := oldLine + h.oldCount;
        newLine := newLine + h.newCount;
        i := next;
      }
    }
    assert cs[i..] == [];
  }

  // ---- what the hunks say ----

  /** The lines of a hunk that carry a prefix. */
  function With(prefix: char, lines: seq<Marked>): seq<Line> {
    if lines == [] then []
    else (if lines[0].prefix == prefix then [lines[0].text] else []) + With(prefix, lines[1..])
  }

  /** Every hunk lies in order behind `pos`, and its minus lines are the old lines it names. */
  predicate FitsOld(orig: seq<Line>, pos: nat, hunks: seq<Hunk>)
    decreases |hunks|
  {
    hunks == [] ||
    var h := hunks[0];
    && pos + 1 <= h.oldStart && h.oldStart - 1 + h.oldCount <= |orig|
    && With('-', h.lines) == orig[h.oldStart - 1..h.oldStart - 1 + h.oldCount]
    && FitsOld(orig, h.oldStart - 1 + h.oldCount, hunks[1..])
  }

  /** Copying from `pos` on, with each hunk's plus lines in place of the old lines it names. */
  function Patch(orig: seq<Line>, pos: nat, hunks: seq<Hunk>): seq<Line>
    requires pos <= |orig| && FitsOld(orig, pos, hunks)
    decreases |hunks|
  {
    if hunks == [] then orig[pos..]
    else
      var h := hunks[0];
      orig[pos..h.oldStart - 1] + With('+', h.lines) + Patch(orig, h.oldStart - 1 + h.oldCount, hunks[1..])
  }

  lemma {:induction false} WithAppend(prefix: char, a: seq<Marked>, b: seq<Marked>)
    ensures With(prefix, a + b) == With(prefix, a) + With(prefix, b)
  {
    if a == [] {
      assert a + b == b;
    } else {
      assert (a + b)[1..] == a[1..] + b;
      WithAppend(prefix, a[1..], b);
    }
  }

  lemma {:induction false} WithMark(prefix: char, mark: char, lines: seq<Line>)
    ensures With(prefix, Mark(mark, lines)) == if prefix == mark then lines else []
    decreases |lines|
  {
    if lines != [] {
      WithMark(prefix, mark, lines[1..]);
      assert Mark(mark, lines)[1..] == Mark(mark, lines[1..]);
    }
  }

  lemma {:induction false} MarkedTexts(run: seq<Change>)
    requires forall i :: 0 <= i < |run| ==> !run[i].Unchanged?
    ensures With('-', MarkedLines(run)) == OldText(run)
    ensures With('+', MarkedLines(run)) == NewText(run)
  {
    if run != [] {
      var mark := if run[0].Deleted? then '-' else '+';
      WithAppend('-', Mark(mark, run[0].lines), MarkedLines(run[1..]));
      WithAppend('+', Mark(mark, run[0].lines), MarkedLines(run[1..]));
      WithMark('-', mark, run[0].lines);
      WithMark('+', mark, run[0].lines);
      MarkedTexts(run[1..]);
    }
  }

  /** A change list split at its first run. */
  lemma FirstRun(cs: seq<Change>)
    requires cs != [] && !cs[0].Unchanged?
    ensures var n := RunLength(cs);
      && n > 0
      && OldText(cs) == OldText(cs[..n]) + OldText(cs[n..])
      && NewText(cs) == NewText(cs[..n]) + NewText(cs[n..])
      && With('-', MarkedLines(cs[..n])) == OldText(cs[..n])
      && With('+', MarkedLines(cs[..n])) == NewText(cs[..n])
  {
    var n := RunLength(cs);
    assert cs == cs[..n] + cs[n..];
    TextsAppend(cs[..n], cs[n..]);
    MarkedTexts(cs[..n]);
  }

  lemma Regroup(a: seq<Line>, b: seq<Line>, c: seq<Line>, d: seq<Line>)
    ensures (a + b) + c + d == a + (b + c + d)
  {
  }

  /** Starting earlier copies more. */
  lemma PatchEarlier(orig: seq<Line>, start: nat, pos: nat, hunks: seq<Hunk>)
    requires start <= pos <= |orig| && FitsOld(orig, pos, hunks)
    ensures FitsOld(orig, start, hunks)
    ensures Patch(orig, start, hunks) == orig[start..pos] + Patch(orig, pos, hunks)
  {
    hide With;
    if hunks == [] {
      assert orig[start..] == orig[start..pos] + orig[pos..];
    } else {
      var h := hunks[0];
      var after := h.oldStart - 1 + h.oldCount;
      assert FitsOld(orig, after, hunks[1..]);
      var tail := Patch(orig, after, hunks[1..]);
      assert Patch(orig, pos, hunks) == orig[pos..h.oldStart - 1] + With('+', h.lines) + tail;
      assert Patch(orig, start, hunks) == orig[start..h.oldStart - 1] + With('+', h.lines) + tail;
      hide Patch, FitsOld;
      assert orig[start..h.oldStart - 1] == orig[start..pos] + orig[pos..h.oldStart - 1];
      Regroup(orig[start..pos], orig[pos..h.oldStart - 1], With('+', h.lines), tail);
    }
  }

  /** The tail of a change list, patched, with lines copied before it. */
  predicate PatchesTo(cs: seq<Change>, before: seq<Line>, newLine: nat) {
    var hunks, orig := HunksOf(cs, |before| + 1, newLine), before + OldText(cs);
    FitsOld(orig, |before|, hunks) && Patch(orig, |before|, hunks) == NewText(cs)
  }

  lemma CopyStep(cs: seq<Change>, before: seq<Line>, newLine: nat)
    requires cs != [] && cs[0].Unchanged?
    requires PatchesTo(cs[1..], before + cs[0].lines, newLine + |cs[0].lines|)
    ensures PatchesTo(cs, before, newLine)
  {
    var lines := cs[0].lines;
    var more := before + lines;
    var orig := before + OldText(cs);
    assert orig == more + OldText(cs[1..]);
    var hunks := HunksOf(cs, |before| + 1, newLine);
    HunksSkip(cs, |before| + 1, newLine);
    hide With, Patch, FitsOld, HunksOf, OldText;
    PatchEarlier(orig, |before|, |more|, hunks);
    assert orig[|before|..|more|] == lines;
  }

  lemma PatchOne(before: seq<Line>, removed: seq<Line>, tail: seq<Line>, h: Hunk, rest: seq<Hunk>)
    requires h.oldStart == |before| + 1 && h.oldCount == |removed| && With('-', h.lines) == removed
    requires FitsOld(before + removed + tail, |before + removed|, rest)
    ensures var orig := before + removed + tail;
      && FitsOld(orig, |before|, [h] + rest)
      && Patch(orig, |before|, [h] + rest) == With('+', h.lines) + Patch(orig, |before + removed|, rest)
  {
    hide With;
    var orig := before + removed + tail;
    assert ([h] + rest)[1..] == rest;
    assert orig[|before|..|before|] == [];
    assert orig[|before|..|before + removed|] == removed;
  }

  lemma ReplaceStep(cs: seq<Change>, before: seq<Line>, newLine: nat, n: nat)
    requires cs != [] && !cs[0].Unchanged? && n == RunLength(cs)
    requires PatchesTo(cs[n..], before + OldText(cs[..n]), newLine + |NewText(cs[..n])|)
    ensures PatchesTo(cs, before, newLine)
  {
    hide OldText, NewText, RunLength, MarkedLines, With, HunksOf, FitsOld, Patch;
    FirstRun(cs);
    HunksRun(cs, |before| + 1, newLine, n);
    var removed, tail := OldText(cs[..n]), OldText(cs[n..]);
    assert before + OldText(cs) == before + removed + tail;
    var h := HunkOf(cs[..n], |before| + 1, newLine);
    var rest := HunksOf(cs[n..], |before + removed| + 1, newLine + |NewText(cs[..n])|);
    PatchOne(before, removed, tail, h, rest);
  }

  lemma {:induction false} HunksPatchFrom(cs: seq<Change>, before: seq<Line>, newLine: nat)
    ensures PatchesTo(cs, before, newLine)
    decreases |cs|
  {
    if cs == [] {
      assert before + OldText(cs) == before && before[|before|..] == [];
    } else {
      hide PatchesTo;
      if cs[0].Unchanged? {
        HunksPatchFrom(cs[1..], before + cs[0].lines, newLine + |cs[0].lines|);
        CopyStep(cs, before, newLine);
      } else {
        FirstRun(cs);
        var n := RunLength(cs);
        HunksPatchFrom(cs[n..], before + OldText(cs[..n]), newLine + |NewText(cs[..n])|);
        ReplaceStep(cs, before, newLine, n);
      }
    }
  }

  /** The change list and the hunks read from the new text to the old. */
  function Reversed(cs: seq<Change>): seq<Change> {
    seq(|cs|, i requires 0 <= i < |cs| => ReversedChange(cs[i]))
  }

  function ReversedChange(c: Change): Change {
    match c
    case Unchanged(lines) => c
    case Deleted(lines) => Inserted(lines)
    case Inserted(lines) => Deleted(lines)
  }

  function ReversedHunk(h: Hunk): Hunk {
    Hunk(h.newStart, h.newCount, h.oldStart, h.oldCount, ReversedLines(h.lines))
  }

  function ReversedLines(lines: seq<Marked>): seq<Marked> {
    seq(|lines|, i requires 0 <= i < |lines| => Marked(if lines[i].prefix == '-' then '+' else '-', lines[i].text))
  }

  function ReversedHunks(hunks: seq<Hunk>): seq<Hunk> {
    seq(|hunks|, i requires 0 <= i < |hunks| => ReversedHunk(hunks[i]))
  }

  lemma {:induction false} ReversedTexts(cs: seq<Change>)
    ensures OldText(Reversed(cs)) == NewText(cs) && NewText(Reversed(cs)) == OldText(cs)
    ensures RunLength(Reversed(cs)) == RunLength(cs)
  {
    if cs != [] {
      ReversedTexts(cs[1..]);
      assert Reversed(cs)[1..] == Reversed(cs[1..]);
    }
  }

  lemma ReversedMark(c: Change, rest: seq<Marked>)
    requires !c.Unchanged?
    ensures var d := ReversedChange(c);
      ReversedLines(Mark(if c.Deleted? then '-' else '+', c.lines) + rest)
      == Mark(if d.Deleted? then '-' else '+', d.lines) + ReversedLines(rest)
  {
  }

  lemma {:induction false} ReversedMarkedLines(run: seq<Change>)
    requires forall i :: 0 <= i < |run| ==> !run[i].Unchanged?
    ensures MarkedLines(Reversed(run)) == ReversedLines(MarkedLines(run))
  {
    if run != [] {
      ReversedMarkedLines(run[1..]);
      assert Reversed(run)[1..] == Reversed(run[1..]);
      ReversedMark(run[0], MarkedLines(run[1..]));
      hide ReversedLines, Mark;
    }
  }

  lemma ReversedHunkOf(run: seq<Change>, oldLine: nat, newLine: nat)
    requires forall i :: 0 <= i < |run| ==> !run[i].Unchanged?
    ensures HunkOf(Reversed(run), newLine, oldLine) == ReversedHunk(HunkOf(run, oldLine, newLine))
  {
    ReversedTexts(run);
    ReversedMarkedLines(run);
  }

  lemma ReversedHunksCons(h: Hunk, rest: seq<Hunk>)
    ensures ReversedHunks([h] + rest) == [ReversedHunk(h)] + ReversedHunks(rest)
  {
  }

  lemma ReversedRun(cs: seq<Change>, oldLine: nat, newLine: nat, n: nat)
    requires cs != [] && !cs[0].Unchanged? && n == RunLength(cs)
    requires var tail, removed, added := cs[n..], |OldText(cs[..n])|, |NewText(cs[..n])|;
      HunksOf(Reversed(tail), newLine + added, oldLine + removed)
      == ReversedHunks(HunksOf(tail, oldLine + removed, newLine + added))
    ensures HunksOf(Reversed(cs), newLine, oldLine) == ReversedHunks(HunksOf(cs, oldLine, newLine))
  {
    hide HunksOf, RunLength, OldText, NewText, ReversedHunks, HunkOf;
    var rs, run := Reversed(cs), cs[..n];
    ReversedTexts(cs);
    HunksRun(cs, oldLine, newLine, n);
    HunksRun(rs, newLine, oldLine, n);
    assert rs[..n] == Reversed(run) && rs[n..] == Reversed(cs[n..]);
    hide Reversed;
    ReversedTexts(run);
    ReversedHunkOf(run, oldLine, newLine);
    ReversedHunksCons(
      HunkOf(run, oldLine, newLine), HunksOf(cs[n..], oldLine + |OldText(run)|, newLine + |NewText(run)|));
  }

  lemma {:induction false} HunksOfReversed(cs: seq<Change>, oldLine: nat, newLine: nat)
    ensures HunksOf(Reversed(cs), newLine, oldLine) == ReversedHunks(HunksOf(cs, oldLine, newLine))
    decreases |cs|
  {
    if cs != [] {
      if cs[0].Unchanged? {
        hide HunksOf, ReversedHunks;
        HunksSkip(cs, oldLine, newLine);
        HunksSkip(Reversed(cs), newLine, oldLine);
        assert Reversed(cs)[1..] == Reversed(cs[1..]);
        HunksOfReversed(cs[1..], oldLine + |cs[0].lines|, newLine + |cs[0].lines|);
      } else {
        var n := RunLength(cs);
        assert n > 0;
        hide *;
        HunksOfReversed(cs[n..], oldLine + |OldText(cs[..n])|, newLine + |NewText(cs[..n])|);
        ReversedRun(cs, oldLine, newLine, n);
      }
    }
  }

  /**
    * The hunks of any change list fit the old text, name the lines they remove, and turn it into the new text;
    * read backwards they fit the new text, name the lines added, and turn it into the old one.
    */
  lemma HunksPatch(cs: seq<Change>)
    ensures var hunks, orig, text := HunksOf(cs, 1, 1), OldText(cs), NewText(cs);
      && FitsOld(orig, 0, hunks) && Patch(orig, 0, hunks) == text
      && FitsOld(text, 0, ReversedHunks(hunks)) && Patch(text, 0, ReversedHunks(hunks)) == orig
  {
    HunksPatchFrom(cs, [], 1);
    HunksPatchFrom(Reversed(cs), [], 1);
    ReversedTexts(cs);
    HunksOfReversed(cs, 1, 1);
    hide HunksOf, FitsOld, Patch, OldText, NewText;
    assert [] + OldText(cs) == OldText(cs) && [] + OldText(Reversed(cs)) == OldText(Reversed(cs));
  }

  lemma ReplacementRun(removed: seq<Line>, added: seq<Line>)
    ensures var run := [Deleted(removed), Inserted(added)];
      OldText(run) == removed && NewText(run) == added && MarkedLines(run) == Mark('-', removed) + Mark('+', added)
  {
    RunStarts();
    assert [] + [Deleted(removed)] == [Deleted(removed)];
    assert [Deleted(removed)] + [Inserted(added)] == [Deleted(removed), Inserted(added)];
    hide OldText, NewText, MarkedLines;
    RunGrows([], Deleted(removed));
    RunGrows([Deleted(removed)], Inserted(added));
  }

  lemma NothingMoreIsShown(behind: seq<Line>, oldLine: nat, newLine: nat)
    ensures HunksOf([Unchanged(behind)], oldLine, newLine) == []
  {
    HunksSkip([Unchanged(behind)], oldLine, newLine);
  }

  /** How a replaced passage is shown: where it stands in either text, the lines removed, then the lines added. */
  lemma ReplacementIsShown(kept: seq<Line>, removed: seq<Line>, added: seq<Line>, behind: seq<Line>)
    ensures var cs := [Unchanged(kept), Deleted(removed), Inserted(added), Unchanged(behind)];
      var lines := seq(|removed|, i requires 0 <= i < |removed| => Marked('-', removed[i]))
                   + seq(|added|, i requires 0 <= i < |added| => Marked('+', added[i]));
      HunksOf(cs, 1, 1) == [Hunk(|kept| + 1, |removed|, |kept| + 1, |added|, lines)]
  {
    hide HunksOf, OldText, NewText, MarkedLines;
    var cs := [Unchanged(kept), Deleted(removed), Inserted(added), Unchanged(behind)];
    assert cs[1..][..2] == [Deleted(removed), Inserted(added)] && cs[1..][2..] == [Unchanged(behind)];
    HunksSkip(cs, 1, 1);
    RunLengthIs(cs[1..], 2);
    HunksRun(cs[1..], |kept| + 1, |kept| + 1, 2);
    ReplacementRun(removed, added);
    NothingMoreIsShown(behind, |kept| + 1 + |removed|, |kept| + 1 + |added|);
  }

  /** Nothing is shown exactly when nothing is marked as changed. */
  lemma {:induction false} NoHunksIff(cs: seq<Change>, oldLine: nat, newLine: nat)
    ensures HunksOf(cs, oldLine, newLine) == [] <==> forall i :: 0 <= i < |cs| ==> cs[i].Unchanged?
    decreases |cs|
  {
    if cs != [] && cs[0].Unchanged? {
      NoHunksIff(cs[1..], oldLine + |cs[0].lines|, newLine + |cs[0].lines|);
      assert forall i :: 0 < i < |cs| ==> cs[i] == cs[1..][i - 1];
    }
  }
}
