/** The line-level three-way merge: the loop over both sides' change maps, what it keeps and what it drops. */
module LineMerge {
  import opened Numbers
  import opened Wrappers
  import opened LineChanges
  import opened LcsDiff
  import opened LinearDiff
  import opened ChangeMaps

  datatype MergeOutput = MergeOutput(lines: seq<Line>, autoMerged: nat, conflicts: nat) {
    predicate IsClean() { conflicts == 0 }
  }

  datatype Labels = Labels(ours: string, theirs: string)

  function Block(labels: Labels, a: Action, b: Action): seq<Line> {
    ["<<<<<<< " + labels.ours] + Out(a) + ["======="] + Out(b) + [">>>>>>> " + labels.theirs]
  }

  // ---- the loop as a function ----

  /** What one turn of the loop writes and how far it moves. */
  datatype Turn = Turn(lines: seq<Line>, advance: nat, autoMerged: nat, conflicts: nat)

  function TurnAt(labels: Labels, a: Option<Action>, b: Option<Action>): Turn {
    match (a, b)
    case (None, None) => Turn([], 0, 0, 0)
    case (Some(x), None) => Turn(Out(x), Advance(x), 0, 0)
    case (None, Some(y)) => Turn(Out(y), Advance(y), 0, 0)
    case (Some(x), Some(y)) =>
      if Out(x) == Out(y) then Turn(Out(x), Advance(x), 1, 0)
      else Turn(Block(labels, x, y), Max(Advance(x), Advance(y)), 0, 1)
  }

  function Before(t: Turn, rest: MergeOutput): MergeOutput {
    MergeOutput(t.lines + rest.lines, t.autoMerged + rest.autoMerged, t.conflicts + rest.conflicts)
  }

  function Copied(line: Line): Turn {
    Turn([line], 0, 0, 0)
  }

  /** Actions behind the last base line; equal ones are not counted. */
  function Trailing(labels: Labels, a: Option<Action>, b: Option<Action>): MergeOutput {
    var t := TurnAt(labels, a, b);
    MergeOutput(t.lines, 0, t.conflicts)
  }

  /** The merge from base line `i` on. A turn that does not move is followed by one that copies the line. */
  function MergeFrom(labels: Labels, base: seq<Line>, a: ActionMap, b: ActionMap, i: nat): MergeOutput
    decreases |base| - i
  {
    if i >= |base| then Trailing(labels, At(a, |base|), At(b, |base|))
    else
      var t := TurnAt(labels, At(a, i), At(b, i));
      Before(t, if t.advance == 0 then Before(Copied(base[i]), MergeFrom(labels, base, a, b, i + 1))
                else MergeFrom(labels, base, a, b, i + t.advance))
  }

  function Merged(labels: Labels, base: seq<Line>, ours: seq<Line>, theirs: seq<Line>): MergeOutput {
    if ours == theirs then MergeOutput(ours, 0, 0)
    else if base == ours then MergeOutput(theirs, 0, 0)
    else if base == theirs then MergeOutput(ours, 0, 0)
    else MergeFrom(labels, base, ChangeMap(DiffOf(base, ours)), ChangeMap(DiffOf(base, theirs)), 0)
  }

  // ---- the loop as the code runs it ----

  /** What is still to come when the actions at `i` are already taken (`taken`) or not. */
  function ToCome(labels: Labels, base: seq<Line>, a: ActionMap, b: ActionMap, i: nat, taken: bool): MergeOutput {
    if taken && i < |base| then Before(Copied(base[i]), MergeFrom(labels, base, a, b, i + 1))
    else MergeFrom(labels, base, a, b, i)
  }

  /** A shrinking map still holds what the loop can meet. */
  ghost predicate StillHolds(left: ActionMap, m: ActionMap, i: nat, taken: bool) {
    (forall k :: k > i ==> At(left, k) == At(m, k)) && At(left, i) == (if taken then None else At(m, i))
  }

  lemma Regrouped(out: MergeOutput, t: Turn, rest: MergeOutput)
    ensures Before(Turn(out.lines, 0, out.autoMerged, out.conflicts), Before(t, rest)) ==
            Before(Turn(out.lines + t.lines, 0, out.autoMerged + t.autoMerged, out.conflicts + t.conflicts), rest)
  {
  }

  function SoFar(out: MergeOutput): Turn {
    Turn(out.lines, 0, out.autoMerged, out.conflicts)
  }

  function Without(m: ActionMap, k: nat): ActionMap {
    m - {k}
  }

  /** One turn on the actions still in the maps. */
  lemma TurnTakesAction(
      labels: Labels, base: seq<Line>, a: ActionMap, b: ActionMap, i: nat, taken: bool,
      leftA: ActionMap, leftB: ActionMap)
    requires i < |base| && StillHolds(leftA, a, i, taken) && StillHolds(leftB, b, i, taken)
    requires !taken && (i in leftA || i in leftB)
    ensures var t := TurnAt(labels, At(leftA, i), At(leftB, i));
      && ToCome(labels, base, a, b, i, taken) == Before(t, ToCome(labels, base, a, b, i + t.advance, t.advance == 0))
      && StillHolds(Without(leftA, i), a, i + t.advance, t.advance == 0)
      && StillHolds(Without(leftB, i), b, i + t.advance, t.advance == 0)
  {
    hide Block;
    assert At(leftA, i) == At(a, i) && At(leftB, i) == At(b, i);
    forall k | k > i
      ensures At(Without(leftA, i), k) == At(a, k) && At(Without(leftB, i), k) == At(b, k)
    {
      assert At(leftA, k) == At(a, k) && At(leftB, k) == At(b, k);
    }
  }

  lemma TurnCopies(
      labels: Labels, base: seq<Line>, a: ActionMap, b: ActionMap, i: nat, taken: bool,
      leftA: ActionMap, leftB: ActionMap)
    requires i < |base| && StillHolds(leftA, a, i, taken) && StillHolds(leftB, b, i, taken)
    requires i !in leftA && i !in leftB
    ensures ToCome(labels, base, a, b, i, taken) == Before(Copied(base[i]), ToCome(labels, base, a, b, i + 1, false))
    ensures StillHolds(leftA, a, i + 1, false) && StillHolds(leftB, b, i + 1, false)
  {
    hide Block;
    assert At(leftA, i).None? && At(leftB, i).None?;
  }

  lemma TrailingTakes(
      labels: Labels, base: seq<Line>, a: ActionMap, b: ActionMap, i: nat, taken: bool,
      leftA: ActionMap, leftB: ActionMap)
    requires i == |base| && !taken && StillHolds(leftA, a, i, taken) && StillHolds(leftB, b, i, taken)
    ensures ToCome(labels, base, a, b, i, taken) == Trailing(labels, At(leftA, |base|), At(leftB, |base|))
  {
  }

  /** Writing one pair of actions at the same place. */
  method WriteBoth(labels: Labels, out: MergeOutput, a: Action, b: Action) returns (r: MergeOutput, advance: nat)
    ensures var t := TurnAt(labels, Some(a), Some(b));
      && advance == t.advance
      && r == MergeOutput(out.lines + t.lines, out.autoMerged + t.autoMerged, out.conflicts + t.conflicts)
  {
    if Out(a) == Out(b) {
      r := MergeOutput(out.lines + Out(a), out.autoMerged + 1, out.conflicts);
      advance := Advance(a);
    } else {
      var lines := out.lines;
      lines := lines + ["<<<<<<< " + labels.ours];
      lines := lines + Out(a);
      lines := lines + ["======="];
      lines := lines + Out(b);
      lines := lines + [">>>>>>> " + labels.theirs];
      assert lines == out.lines + Block(labels, a, b);
      r := MergeOutput(lines, out.autoMerged, out.conflicts + 1);
      advance := Max(Advance(a), Advance(b));
    }
  }

  method ThreeWayMergeLines(labels: Labels, base: seq<Line>, ours: seq<Line>, theirs: seq<Line>)
    returns (out: MergeOutput)
    ensures out == Merged(labels, base, ours, theirs)
  {
    if ours == theirs {
      return MergeOutput(ours, 0, 0);
    }
    if base == ours {
      return MergeOutput(theirs, 0, 0);
    }
    if base == theirs {
      return MergeOutput(ours, 0, 0);
    }
    var oursDiff := DiffLines(base, ours);
    var theirsDiff := DiffLines(base, theirs);
    var a := BuildChangeMap(oursDiff);
    var b := BuildChangeMap(theirsDiff);
    DiffInOrder(base, ours);
    DiffInOrder(base, theirs);
    out := MergeMaps(labels, base, a, b);
  }

  /** Where the loop stands: what is written, and what the maps still hold. */
  datatype Loop = Loop(out: MergeOutput, i: nat, leftA: ActionMap, leftB: ActionMap)

  ghost predicate Stands(labels: Labels, base: seq<Line>, a: ActionMap, b: ActionMap, taken: bool, s: Loop) {
    && s.i <= |base| && (taken ==> s.i < |base|)
    && StillHolds(s.leftA, a, s.i, taken) && StillHolds(s.leftB, b, s.i, taken)
    && Before(SoFar(s.out), ToCome(labels, base, a, b, s.i, taken)) == MergeFrom(labels, base, a, b, 0)
  }

  lemma CopyKeepsStanding(labels: Labels, base: seq<Line>, a: ActionMap, b: ActionMap, taken: bool, s: Loop)
    requires Stands(labels, base, a, b, taken, s) && s.i < |base| && s.i !in s.leftA && s.i !in s.leftB
    ensures Stands(labels, base, a, b, false, s.(out := s.out.(lines := s.out.lines + [base[s.i]]), i := s.i + 1))
  {
    hide ToCome, MergeFrom, StillHolds;
    TurnCopies(labels, base, a, b, s.i, taken, s.leftA, s.leftB);
    Regrouped(s.out, Copied(base[s.i]), ToCome(labels, base, a, b, s.i + 1, false));
    hide Before;
  }

  lemma ActionKeepsStanding(labels: Labels, base: seq<Line>, a: ActionMap, b: ActionMap, taken: bool, s: Loop)
    requires InOrder(a, |base|) && InOrder(b, |base|)
    requires Stands(labels, base, a, b, taken, s) && s.i < |base| && (s.i in s.leftA || s.i in s.leftB)
    ensures var t := TurnAt(labels, At(s.leftA, s.i), At(s.leftB, s.i));
      Stands(labels, base, a, b, t.advance == 0, Loop(
        MergeOutput(s.out.lines + t.lines, s.out.autoMerged + t.autoMerged, s.out.conflicts + t.conflicts),
        s.i + t.advance, Without(s.leftA, s.i), Without(s.leftB, s.i)))
  {
    hide ToCome, MergeFrom, StillHolds, TurnAt, InOrder, Without;
    NothingTwice(a, b, s.i, taken, s.leftA, s.leftB);
    TurnStaysInside(labels, a, b, s.i, |base|, s.leftA, s.leftB);
    TurnTakesAction(labels, base, a, b, s.i, taken, s.leftA, s.leftB);
    var t := TurnAt(labels, At(s.leftA, s.i), At(s.leftB, s.i));
    Regrouped(s.out, t, ToCome(labels, base, a, b, s.i + t.advance, t.advance == 0));
    hide Before;
  }

  /** Writing what stands at one place: one side's action or both. */
  method WriteActions(labels: Labels, out: MergeOutput, x: Option<Action>, y: Option<Action>)
    returns (r: MergeOutput, advance: nat)
    requires x.Some? || y.Some?
    ensures var t := TurnAt(labels, x, y);
      && advance == t.advance
      && r == MergeOutput(out.lines + t.lines, out.autoMerged + t.autoMerged, out.conflicts + t.conflicts)
  {
    if x.Some? && y.Some? {
      r, advance := WriteBoth(labels, out, x.value, y.value);
    } else {
      var action := if x.Some? then x.value else y.value;
      OneAction(labels, x, y);
      r := out.(lines := out.lines + Out(action));
      advance := Advance(action);
    }
  }

  /** A turn that meets no action copies the line. */
  method CopyLine(labels: Labels, base: seq<Line>, ghost a: ActionMap, ghost b: ActionMap, ghost taken: bool, s: Loop)
    returns (r: Loop)
    requires Stands(labels, base, a, b, taken, s) && s.i < |base| && s.i !in s.leftA && s.i !in s.leftB
    ensures Stands(labels, base, a, b, false, r) && s.i < r.i <= |base|
  {
    hide Stands;
    CopyKeepsStanding(labels, base, a, b, taken, s);
    r := s.(out := s.out.(lines := s.out.lines + [base[s.i]]), i := s.i + 1);
  }

  /** A turn that meets actions takes them out of the maps and writes what they say. */
  method TakeActions(
      labels: Labels, base: seq<Line>, ghost a: ActionMap, ghost b: ActionMap, ghost taken: bool, s: Loop)
    returns (r: Loop, ghost after: bool)
    requires InOrder(a, |base|) && InOrder(b, |base|)
    requires Stands(labels, base, a, b, taken, s) && s.i < |base| && (s.i in s.leftA || s.i in s.leftB)
    ensures Stands(labels, base, a, b, after, r) && s.i <= r.i <= |base|
    ensures |r.leftA| + |r.leftB| < |s.leftA| + |s.leftB|
  {
    hide Stands, TurnAt, InOrder, Without;
    ActionKeepsStanding(labels, base, a, b, taken, s);
    InsideBase(labels, base, a, b, s, taken);
    RemovalShrinks(s.leftA, s.leftB, s.i);
    var out, advance := WriteActions(labels, s.out, At(s.leftA, s.i), At(s.leftB, s.i));
    r := Loop(out, s.i + advance, Without(s.leftA, s.i), Without(s.leftB, s.i));
    after := advance == 0;
  }

  /** The loop over the base, taking actions out of both maps. */
  method MergeMaps(labels: Labels, base: seq<Line>, a: ActionMap, b: ActionMap) returns (out: MergeOutput)
    requires InOrder(a, |base|) && InOrder(b, |base|)
    ensures out == MergeFrom(labels, base, a, b, 0)
  {
    hide Stands, MergeFrom, InOrder;
    var s := Loop(MergeOutput([], 0, 0), 0, a, b);
    ghost var taken := false;
    StartsWhole(labels, base, a, b);
    while s.i < |base|
      invariant s.i <= |base|
      invariant Stands(labels, base, a, b, taken, s)
      decreases |base| - s.i, |s.leftA| + |s.leftB|
    {
      if s.i !in s.leftA && s.i !in s.leftB {
        s := CopyLine(labels, base, a, b, taken, s);
        taken := false;
      } else {
        s, taken := TakeActions(labels, base, a, b, taken, s);
      }
    }
    out := WriteTrailing(labels, base, a, b, s.out, s.i, taken, s.leftA, s.leftB);
  }

  lemma InsideBase(labels: Labels, base: seq<Line>, a: ActionMap, b: ActionMap, s: Loop, taken: bool)
    requires InOrder(a, |base|) && InOrder(b, |base|)
    requires Stands(labels, base, a, b, taken, s) && s.i < |base| && (s.i in s.leftA || s.i in s.leftB)
    ensures s.i + TurnAt(labels, At(s.leftA, s.i), At(s.leftB, s.i)).advance <= |base|
  {
    hide ToCome, MergeFrom;
    NothingTwice(a, b, s.i, taken, s.leftA, s.leftB);
    TurnStaysInside(labels, a, b, s.i, |base|, s.leftA, s.leftB);
  }

  /** Insertions behind the last base line. */
  method WriteTrailing(
      labels: Labels, base: seq<Line>, ghost a: ActionMap, ghost b: ActionMap,
      out: MergeOutput, i: nat, ghost taken: bool, leftA: ActionMap, leftB: ActionMap)
    returns (r: MergeOutput)
    requires i == |base| && Stands(labels, base, a, b, taken, Loop(out, i, leftA, leftB))
    ensures r == MergeFrom(labels, base, a, b, 0)
  {
    hide ToCome, MergeFrom, StillHolds, TurnAt;
    TrailingTakes(labels, base, a, b, i, taken, leftA, leftB);
    var x, y := At(leftA, |base|), At(leftB, |base|);
    if x.Some? || y.Some? {
      var tail, _ := WriteActions(labels, out, x, y);
      r := tail.(autoMerged := out.autoMerged);
    } else {
      NoAction(labels);
      assert out.lines + [] == out.lines;
      r := out;
    }
  }

  lemma StartsWhole(labels: Labels, base: seq<Line>, a: ActionMap, b: ActionMap)
    ensures Stands(labels, base, a, b, false, Loop(MergeOutput([], 0, 0), 0, a, b))
  {
    hide MergeFrom;
    assert [] + MergeFrom(labels, base, a, b, 0).lines == MergeFrom(labels, base, a, b, 0).lines;
  }

  lemma NothingTwice(a: ActionMap, b: ActionMap, i: nat, taken: bool, leftA: ActionMap, leftB: ActionMap)
    requires StillHolds(leftA, a, i, taken) && StillHolds(leftB, b, i, taken)
    requires At(leftA, i).Some? || At(leftB, i).Some?
    ensures !taken && (i in leftA || i in leftB)
  {
  }

  lemma TurnStaysInside(labels: Labels, a: ActionMap, b: ActionMap, i: nat, n: nat, leftA: ActionMap, leftB: ActionMap)
    requires InOrder(a, n) && InOrder(b, n) && i < n
    requires StillHolds(leftA, a, i, false) && StillHolds(leftB, b, i, false)
    ensures i + TurnAt(labels, At(leftA, i), At(leftB, i)).advance <= n
  {
    hide Block;
  }

  lemma RemovalShrinks(m: ActionMap, w: ActionMap, k: nat)
    requires k in m || k in w
    ensures |Without(m, k)| + |Without(w, k)| < |m| + |w|
  {
    hide Without;
    RemovalSize(m, k);
    RemovalSize(w, k);
  }

  lemma RemovalSize(m: ActionMap, k: nat)
    ensures |Without(m, k)| == |m| - (if k in m then 1 else 0)
  {
    var left := Without(m, k);
    if k in m {
      assert m.Keys == left.Keys + {k};
      assert |m.Keys| == |left.Keys| + 1;
    } else {
      assert left == m;
    }
  }

  lemma OneAction(labels: Labels, x: Option<Action>, y: Option<Action>)
    requires x.Some? != y.Some?
    ensures var action := if x.Some? then x.value else y.value;
      TurnAt(labels, x, y) == Turn(Out(action), Advance(action), 0, 0)
  {
  }

  lemma NoAction(labels: Labels)
    ensures TurnAt(labels, None, None) == Turn([], 0, 0, 0)
  {
  }

  lemma DiffInOrder(base: seq<Line>, text: seq<Line>)
    ensures InOrder(ChangeMap(DiffOf(base, text)), |base|)
    ensures Replay(base, ChangeMap(DiffOf(base, text)), 0) == NewText(DiffOf(base, text))
  {
    var cs := DiffOf(base, text);
    DiffShape(base, text);
    DiffRelatesIff(base, text);
    hide DiffOf, WellShaped, NoEmpty, EditsOf, ChangeMap, Replay, NewText, OldText, InOrder;
    MapHoldsEdits(cs);
    EditsInOrder(cs, 0);
    MapReplaysDiff(cs);
  }
}
