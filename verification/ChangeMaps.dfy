/** What one side did at each base line, and the walk that replays it. */
module ChangeMaps {
  import opened Wrappers
  import opened LineChanges
  import opened LcsDiff

  datatype Action =
    | Replace(deleted: nat, inserted: seq<Line>)
    | Insert(lines: seq<Line>)

  function Out(a: Action): seq<Line> {
    if a.Replace? then a.inserted else a.lines
  }

  function Advance(a: Action): nat {
    if a.Replace? then a.deleted else 0
  }

  type ActionMap = map<nat, Action>

  function At(m: ActionMap, k: nat): Option<Action> {
    if k in m then Some(m[k]) else None
  }

  // ---- building the map ----

  /** The map so far, the base line reached, and the deletion a following insertion belongs to. */
  datatype Builder = Builder(actions: ActionMap, at: nat, lastDelete: Option<nat>)

  function Extended(a: Action, lines: seq<Line>): Action {
    match a
    case Replace(n, inserted) => Replace(n, inserted + lines)
    case Insert(before) => Insert(before + lines)
  }

  function AddChange(b: Builder, c: Change): Builder {
    match c
    case Unchanged(lines) => Builder(b.actions, b.at + |lines|, None)
    case Deleted(lines) => Builder(b.actions[b.at := Replace(|lines|, [])], b.at + |lines|, Some(b.at))
    case Inserted(lines) =>
      if b.lastDelete.Some? then
        var d := b.lastDelete.value;
        if d in b.actions && b.actions[d].Replace?
        then b.(actions := b.actions[d := Extended(b.actions[d], lines)])
        else b
      else if b.at in b.actions then b.(actions := b.actions[b.at := Extended(b.actions[b.at], lines)])
      else b.(actions := b.actions[b.at := Insert(lines)])
  }

  function AddChanges(b: Builder, cs: seq<Change>): Builder
    decreases |cs|
  {
    if cs == [] then b else AddChanges(AddChange(b, cs[0]), cs[1..])
  }

  function ChangeMap(cs: seq<Change>): ActionMap {
    AddChanges(Builder(map[], 0, None), cs).actions
  }

  method BuildChangeMap(cs: seq<Change>) returns (actions: ActionMap)
    ensures actions == ChangeMap(cs)
  {
    actions := map[];
    var at: nat := 0;
    var lastDelete: Option<nat> := None;
    assert cs[0..] == cs;
    for i := 0 to |cs|
      invariant AddChanges(Builder(actions, at, lastDelete), cs[i..]) == AddChanges(Builder(map[], 0, None), cs)
    {
      assert cs[i..][1..] == cs[i + 1..];
      match cs[i]
      case Unchanged(lines) =>
        at := at + |lines|;
        lastDelete := None;
      case Deleted(lines) =>
        actions := actions[at := Replace(|lines|, [])];
        lastDelete := Some(at);
        at := at + |lines|;
      case Inserted(lines) =>
        if lastDelete.Some? {
          var d := lastDelete.value;
          if d in actions && actions[d].Replace? {
            actions := actions[d := Replace(actions[d].deleted, actions[d].inserted + lines)];
          }
        } else if at in actions {
          actions := actions[at := Extended(actions[at], lines)];
        } else {
          actions := actions[at := Insert(lines)];
        }
    }
  }

  // ---- replaying a map ----

  /** The base from line `i` on with the actions carried out, as the merge loop walks it. */
  function Replay(base: seq<Line>, m: ActionMap, i: nat): seq<Line>
    decreases |base| - i
  {
    if i >= |base| then (if |base| in m then Out(m[|base|]) else [])
    else if i in m then
      if Advance(m[i]) == 0 then Out(m[i]) + ([base[i]] + Replay(base, m, i + 1))
      else Out(m[i]) + Replay(base, m, i + Advance(m[i]))
    else [base[i]] + Replay(base, m, i + 1)
  }

  // ---- the edits of a well-shaped diff ----

  /** The same map read off from the left: a deletion takes the insertion that follows it. */
  function EditsOf(cs: seq<Change>, at: nat): ActionMap
    decreases |cs|
  {
    if cs == [] then map[]
    else
      match cs[0]
      case Unchanged(lines) => EditsOf(cs[1..], at + |lines|)
      case Inserted(lines) => EditsOf(cs[1..], at)[at := Insert(lines)]
      case Deleted(lines) =>
        if |cs| > 1 && cs[1].Inserted?
        then EditsOf(cs[2..], at + |lines|)[at := Replace(|lines|, cs[1].lines)]
        else EditsOf(cs[1..], at + |lines|)[at := Replace(|lines|, [])]
  }

  predicate StartsAfter(m: ActionMap, at: nat) {
    forall k :: k in m ==> at <= k
  }

  lemma ShapeOfTail(cs: seq<Change>, n: nat)
    requires WellShaped(cs) && NoEmpty(cs) && n <= |cs|
    ensures WellShaped(cs[n..]) && NoEmpty(cs[n..])
  {
    var tail := cs[n..];
    forall i | 0 <= i < |tail| - 1
      ensures MayFollow(tail[i], tail[i + 1])
    {
      assert MayFollow(cs[n + i], cs[n + i + 1]);
    }
  }

  lemma {:induction false} EditsStart(cs: seq<Change>, at: nat)
    ensures StartsAfter(EditsOf(cs, at), at)
    decreases |cs|
  {
    if cs != [] {
      var n := |cs[0].lines|;
      EditsStart(cs[1..], at + n);
      EditsStart(cs[1..], at);
      if |cs| > 1 {
        EditsStart(cs[2..], at + n);
      }
    }
  }

  /** Behind an insertion only unchanged lines follow, so nothing else happens at its place. */
  lemma NothingElseAt(cs: seq<Change>, at: nat)
    requires WellShaped(cs) && NoEmpty(cs) && cs != [] && cs[0].Inserted?
    ensures at !in EditsOf(cs[1..], at)
    ensures cs[1..] == [] || cs[1].Unchanged?
  {
    if |cs| > 1 {
      assert MayFollow(cs[0], cs[1]);
      EditsStart(cs[2..], at + |cs[1].lines|);
      assert cs[1..][0] == cs[1] && cs[1..][1..] == cs[2..];
    }
  }

  /** Actions already recorded lie before the place reached. */
  predicate EndsBefore(m: ActionMap, at: nat) {
    forall k :: k in m ==> k < at
  }

  lemma TwoChanges(b: Builder, cs: seq<Change>)
    requires |cs| >= 2
    ensures AddChanges(b, cs) == AddChanges(AddChange(AddChange(b, cs[0]), cs[1]), cs[2..])
  {
    hide AddChange;
    assert cs[1..][0] == cs[1] && cs[1..][1..] == cs[2..];
    assert AddChanges(b, cs) == AddChanges(AddChange(b, cs[0]), cs[1..]);
  }

  lemma ReplacementIsOneAction(b: Builder, deleted: seq<Line>, inserted: seq<Line>)
    ensures AddChange(AddChange(b, Deleted(deleted)), Inserted(inserted)) ==
            Builder(b.actions[b.at := Replace(|deleted|, inserted)], b.at + |deleted|, Some(b.at))
  {
    var next := AddChange(b, Deleted(deleted));
    assert [] + inserted == inserted;
    assert next.actions[b.at := Replace(|deleted|, inserted)] == b.actions[b.at := Replace(|deleted|, inserted)];
  }

  /** Recording first and adding the later edits, or the other way round. */
  lemma MovePut(m: ActionMap, k: nat, a: Action, later: ActionMap)
    requires k !in later
    ensures m[k := a] + later == m + later[k := a]
  {
  }

  /** From a builder at `at`, the changes `cs` record the edits of `cs`. */
  predicate Records(b: Builder, cs: seq<Change>) {
    AddChanges(b, cs).actions == b.actions + EditsOf(cs, b.at)
  }

  lemma {:induction false} BuilderFollowsEdits(b: Builder, cs: seq<Change>)
    requires WellShaped(cs) && NoEmpty(cs)
    requires EndsBefore(b.actions, b.at)
    requires b.lastDelete.Some? ==> cs == [] || cs[0].Unchanged?
    ensures Records(b, cs)
    decreases |cs|
  {
    if cs == [] {
      assert b.actions + map[] == b.actions;
    } else {
      ShapeOfTail(cs, 1);
      if |cs| > 1 {
        ShapeOfTail(cs, 2);
        assert MayFollow(cs[0], cs[1]);
        assert |cs| > 2 ==> MayFollow(cs[1], cs[2]);
      }
      hide WellShaped, NoEmpty, AddChanges, EditsOf, Records;
      if cs[0].Unchanged? {
        BuilderFollowsEdits(AddChange(b, cs[0]), cs[1..]);
        CopyRecords(b, cs);
      } else if cs[0].Inserted? {
        if |cs| > 1 {
          var after := AddChange(AddChange(b, cs[0]), cs[1]);
          BuilderFollowsEdits(after, cs[2..]);
          InsertRecords(b, cs);
        } else {
          LastInsertRecords(b, cs);
        }
      } else if |cs| > 1 && cs[1].Inserted? {
        ReplacementIsOneAction(b, cs[0].lines, cs[1].lines);
        BuilderFollowsEdits(AddChange(AddChange(b, cs[0]), cs[1]), cs[2..]);
        ReplaceRecords(b, cs);
      } else {
        BuilderFollowsEdits(AddChange(b, cs[0]), cs[1..]);
        DeleteRecords(b, cs);
      }
    }
  }

  lemma CopyRecords(b: Builder, cs: seq<Change>)
    requires cs != [] && cs[0].Unchanged? && Records(AddChange(b, cs[0]), cs[1..])
    ensures Records(b, cs)
  {
  }

  lemma InsertThenCopy(b: Builder, inserted: seq<Line>, copied: seq<Line>)
    requires b.lastDelete.None? && b.at !in b.actions
    ensures AddChange(AddChange(b, Inserted(inserted)), Unchanged(copied)) ==
            Builder(b.actions[b.at := Insert(inserted)], b.at + |copied|, None)
  {
  }

  lemma InsertRecords(b: Builder, cs: seq<Change>)
    requires WellShaped(cs) && NoEmpty(cs) && |cs| > 1 && cs[0].Inserted?
    requires EndsBefore(b.actions, b.at) && b.lastDelete.None?
    requires cs[1].Unchanged? && Records(AddChange(AddChange(b, cs[0]), cs[1]), cs[2..])
    ensures Records(b, cs)
  {
    assert b.at !in b.actions;
    NothingElseAt(cs, b.at);
    hide WellShaped, NoEmpty, EndsBefore;
    var later := EditsOf(cs[1..], b.at);
    assert EditsOf(cs, b.at) == later[b.at := Insert(cs[0].lines)];
    assert later == EditsOf(cs[2..], b.at + |cs[1].lines|) by {
      assert cs[1..][0] == cs[1] && cs[1..][1..] == cs[2..];
    }
    hide AddChanges, EditsOf;
    TwoChanges(b, cs);
    InsertThenCopy(b, cs[0].lines, cs[1].lines);
    hide AddChange;
    MovePut(b.actions, b.at, Insert(cs[0].lines), later);
  }

  lemma LastInsertRecords(b: Builder, cs: seq<Change>)
    requires |cs| == 1 && cs[0].Inserted? && EndsBefore(b.actions, b.at) && b.lastDelete.None?
    ensures Records(b, cs)
  {
    assert cs[1..] == [] && b.at !in b.actions;
    assert AddChanges(b, cs) == AddChange(b, cs[0]);
    assert EditsOf(cs, b.at) == map[][b.at := Insert(cs[0].lines)];
  }

  lemma ReplaceRecords(b: Builder, cs: seq<Change>)
    requires |cs| > 1 && cs[0].Deleted? && cs[1].Inserted? && cs[0].lines != []
    requires Records(AddChange(AddChange(b, cs[0]), cs[1]), cs[2..])
    ensures Records(b, cs)
  {
    TwoChanges(b, cs);
    ReplacementIsOneAction(b, cs[0].lines, cs[1].lines);
    var later := EditsOf(cs[2..], b.at + |cs[0].lines|);
    EditsStart(cs[2..], b.at + |cs[0].lines|);
    assert EditsOf(cs, b.at) == later[b.at := Replace(|cs[0].lines|, cs[1].lines)];
    hide AddChanges, EditsOf, AddChange;
    MovePut(b.actions, b.at, Replace(|cs[0].lines|, cs[1].lines), later);
  }

  lemma DeleteRecords(b: Builder, cs: seq<Change>)
    requires cs != [] && cs[0].Deleted? && cs[0].lines != [] && !(|cs| > 1 && cs[1].Inserted?)
    requires Records(AddChange(b, cs[0]), cs[1..])
    ensures Records(b, cs)
  {
    var later := EditsOf(cs[1..], b.at + |cs[0].lines|);
    EditsStart(cs[1..], b.at + |cs[0].lines|);
    MovePut(b.actions, b.at, Replace(|cs[0].lines|, []), later);
  }

  /** The map built change by change holds the edits of the diff. */
  lemma MapHoldsEdits(cs: seq<Change>)
    requires WellShaped(cs) && NoEmpty(cs)
    ensures ChangeMap(cs) == EditsOf(cs, 0)
  {
    BuilderFollowsEdits(Builder(map[], 0, None), cs);
  }

  // ---- replaying the edits gives the new text ----

  lemma {:induction false} ReplayLooksAhead(base: seq<Line>, m: ActionMap, w: ActionMap, i: nat)
    requires forall k :: k >= i || k == |base| ==> At(m, k) == At(w, k)
    ensures Replay(base, m, i) == Replay(base, w, i)
    decreases |base| - i
  {
    if i < |base| {
      assert At(m, i) == At(w, i);
      ReplayLooksAhead(base, m, w, i + 1);
      if i in m && Advance(m[i]) > 0 {
        ReplayLooksAhead(base, m, w, i + Advance(m[i]));
      }
    } else {
      assert At(m, |base|) == At(w, |base|);
    }
  }

  lemma {:induction false} ReplayCopies(base: seq<Line>, m: ActionMap, i: nat, n: nat)
    requires i + n <= |base| && forall k :: i <= k < i + n ==> k !in m
    ensures Replay(base, m, i) == base[i..i + n] + Replay(base, m, i + n)
    decreases n
  {
    if n == 0 {
      assert base[i..i] == [];
    } else {
      ReplayCopies(base, m, i + 1, n - 1);
      assert base[i..i + n] == [base[i]] + base[i + 1..i + n];
    }
  }

  /** The edits of a tail, replayed from where it starts, give its new text. */
  predicate Replays(cs: seq<Change>, before: seq<Line>) {
    Replay(before + OldText(cs), EditsOf(cs, |before|), |before|) == NewText(cs)
  }

  lemma CopySplit(cs: seq<Change>, at: nat)
    requires cs != [] && cs[0].Unchanged?
    ensures EditsOf(cs, at) == EditsOf(cs[1..], at + |cs[0].lines|)
    ensures OldText(cs) == cs[0].lines + OldText(cs[1..])
    ensures NewText(cs) == cs[0].lines + NewText(cs[1..])
  {
  }

  lemma CopyReplays(cs: seq<Change>, before: seq<Line>)
    requires cs != [] && cs[0].Unchanged? && Replays(cs[1..], before + cs[0].lines)
    ensures Replays(cs, before)
  {
    var lines := cs[0].lines;
    var more := before + lines;
    var m := EditsOf(cs, |before|);
    CopySplit(cs, |before|);
    hide Replay, OldText, NewText, EditsOf;
    EditsStart(cs[1..], |more|);
    var base := before + OldText(cs);
    assert base == more + OldText(cs[1..]);
    assert base[|before|..|more|] == lines;
    ReplayCopies(base, m, |before|, |lines|);
  }

  lemma TextsSplit(cs: seq<Change>, n: nat)
    requires cs != [] && cs[0].Deleted? && n == (if |cs| > 1 && cs[1].Inserted? then 2 else 1)
    ensures OldText(cs) == cs[0].lines + OldText(cs[n..])
    ensures NewText(cs) == (if n == 2 then cs[1].lines else []) + NewText(cs[n..])
  {
    if n == 2 {
      assert cs[1..][0] == cs[1] && cs[1..][1..] == cs[2..];
    }
  }

  /** An action that deletes lines, and what is replayed behind it. */
  lemma ReplayJumps(base: seq<Line>, later: ActionMap, at: nat, a: Action)
    requires at < at + Advance(a) <= |base| && StartsAfter(later, at + Advance(a))
    ensures Replay(base, later[at := a], at) == Out(a) + Replay(base, later, at + Advance(a))
  {
    var m := later[at := a];
    assert Replay(base, m, at) == Out(a) + Replay(base, m, at + Advance(a));
    ReplayLooksAhead(base, m, later, at + Advance(a));
  }

  lemma EditsSplit(cs: seq<Change>, at: nat, n: nat)
    requires cs != [] && cs[0].Deleted? && n == (if |cs| > 1 && cs[1].Inserted? then 2 else 1)
    ensures EditsOf(cs, at) ==
            EditsOf(cs[n..], at + |cs[0].lines|)[at := Replace(|cs[0].lines|, if n == 2 then cs[1].lines else [])]
  {
  }

  lemma DeleteReplays(cs: seq<Change>, before: seq<Line>, n: nat)
    requires cs != [] && cs[0].Deleted? && cs[0].lines != []
    requires n == (if |cs| > 1 && cs[1].Inserted? then 2 else 1) && Replays(cs[n..], before + cs[0].lines)
    ensures Replays(cs, before)
  {
    var lines := cs[0].lines;
    var more := before + lines;
    var a := Replace(|lines|, if n == 2 then cs[1].lines else []);
    var later := EditsOf(cs[n..], |more|);
    hide OldText, NewText, EditsOf, Replay, StartsAfter;
    EditsStart(cs[n..], |more|);
    EditsSplit(cs, |before|, n);
    TextsSplit(cs, n);
    var base := before + OldText(cs);
    assert base == more + OldText(cs[n..]);
    ReplayJumps(base, later, |before|, a);
  }

  /** An action that deletes nothing, and what is replayed at its place without it. */
  lemma ReplayInserts(base: seq<Line>, later: ActionMap, at: nat, lines: seq<Line>)
    requires at <= |base| && at !in later
    ensures Replay(base, later[at := Insert(lines)], at) == lines + Replay(base, later, at)
  {
    var m := later[at := Insert(lines)];
    if at < |base| {
      ReplayLooksAhead(base, m, later, at + 1);
      assert Replay(base, later, at) == [base[at]] + Replay(base, later, at + 1);
    }
  }

  lemma InsertReplays(cs: seq<Change>, before: seq<Line>)
    requires WellShaped(cs) && NoEmpty(cs) && cs != [] && cs[0].Inserted? && Replays(cs[1..], before)
    ensures Replays(cs, before)
  {
    NothingElseAt(cs, |before|);
    var later := EditsOf(cs[1..], |before|);
    assert EditsOf(cs, |before|) == later[|before| := Insert(cs[0].lines)];
    assert OldText(cs) == [] + OldText(cs[1..]) == OldText(cs[1..]);
    assert NewText(cs) == cs[0].lines + NewText(cs[1..]);
    hide EditsOf, WellShaped, NoEmpty, OldText, NewText, Replay;
    ReplayInserts(before + OldText(cs), later, |before|, cs[0].lines);
  }

  lemma {:induction false} EditsReplay(cs: seq<Change>, before: seq<Line>)
    requires WellShaped(cs) && NoEmpty(cs)
    ensures Replays(cs, before)
    decreases |cs|
  {
    if cs == [] {
      assert before + OldText(cs) == before;
    } else {
      ShapeOfTail(cs, 1);
      if cs[0].Deleted? {
        var n := if |cs| > 1 && cs[1].Inserted? then 2 else 1;
        ShapeOfTail(cs, n);
        assert cs[0].lines != [];
        hide Replays, WellShaped, NoEmpty;
        EditsReplay(cs[n..], before + cs[0].lines);
        DeleteReplays(cs, before, n);
      } else {
        hide Replays, WellShaped, NoEmpty;
        if cs[0].Unchanged? {
          EditsReplay(cs[1..], before + cs[0].lines);
          CopyReplays(cs, before);
        } else {
          EditsReplay(cs[1..], before);
          InsertReplays(cs, before);
        }
      }
    }
  }

  /** Replaying the change map of a well-shaped diff over its old text gives its new text. */
  lemma MapReplaysDiff(cs: seq<Change>)
    requires WellShaped(cs) && NoEmpty(cs)
    ensures Replay(OldText(cs), ChangeMap(cs), 0) == NewText(cs)
  {
    hide WellShaped, NoEmpty, ChangeMap, OldText, NewText, EditsOf, Replay;
    MapHoldsEdits(cs);
    EditsReplay(cs, []);
    assert [] + OldText(cs) == OldText(cs);
  }

  /** An insertion recorded before a deletion at the same place is overwritten: the shape of the diff matters. */
  lemma InsertBeforeDeleteIsLost()
    ensures var cs := [Inserted(["x"]), Deleted(["a"])];
      NewText(cs) == ["x"] && Replay(OldText(cs), ChangeMap(cs), 0) == []
  {
    var cs := [Inserted(["x"]), Deleted(["a"])];
    assert cs[1..] == [Deleted(["a"])] && cs[1..][1..] == [];
    assert OldText(cs[1..]) == ["a"] && NewText(cs[1..]) == [];
    TwoChanges(Builder(map[], 0, None), cs);
    assert cs[2..] == [];
    assert ChangeMap(cs) == map[0 := Replace(1, [])];
  }

  /** Insertions one behind the other are one action, in their order, and so are those behind a deletion. */
  lemma InsertionsJoin(x: seq<Line>, y: seq<Line>, d: seq<Line>)
    ensures ChangeMap([Inserted(x), Inserted(y)]) == map[0 := Insert(x + y)]
    ensures ChangeMap([Deleted(d), Inserted(x), Inserted(y)]) == map[0 := Replace(|d|, x + y)]
  {
    var start := Builder(map[], 0, None);
    TwoChanges(start, [Inserted(x), Inserted(y)]);
    var cs := [Deleted(d), Inserted(x), Inserted(y)];
    TwoChanges(start, cs);
    assert cs[2..] == [Inserted(y)] && [Inserted(y)][1..] == [];
    var one := AddChange(AddChange(start, Deleted(d)), Inserted(x));
    assert one.actions == map[0 := Replace(|d|, [] + x)] && [] + x == x;
    assert AddChange(one, Inserted(y)).actions == map[0 := Replace(|d|, x + y)];
  }

  // ---- valid maps ----

  /** Actions lie in the base one behind the other, and deletions delete something. */
  predicate InOrder(m: ActionMap, n: nat) {
    && (forall k :: k in m ==> k + Advance(m[k]) <= n && (m[k].Replace? ==> m[k].deleted > 0))
    && (forall k, l :: k in m && l in m && k < l ==> k + Advance(m[k]) <= l)
  }

  lemma InOrderPut(later: ActionMap, at: nat, a: Action, n: nat)
    requires InOrder(later, n) && StartsAfter(later, at + Advance(a)) && at + Advance(a) <= n
    requires a.Replace? ==> a.deleted > 0
    ensures InOrder(later[at := a], n)
  {
  }

  /** The edits of a tail lie in order between where it starts and where its old text ends. */
  predicate LieInOrder(cs: seq<Change>, at: nat) {
    InOrder(EditsOf(cs, at), at + |OldText(cs)|)
  }

  lemma DeletionInOrder(cs: seq<Change>, at: nat, n: nat)
    requires cs != [] && cs[0].Deleted? && cs[0].lines != []
    requires n == (if |cs| > 1 && cs[1].Inserted? then 2 else 1) && LieInOrder(cs[n..], at + |cs[0].lines|)
    ensures LieInOrder(cs, at)
  {
    hide InOrder, OldText, NewText, EditsOf, StartsAfter;
    var k := |cs[0].lines|;
    TextsSplit(cs, n);
    EditsSplit(cs, at, n);
    EditsStart(cs[n..], at + k);
    InOrderPut(EditsOf(cs[n..], at + k), at, Replace(k, if n == 2 then cs[1].lines else []), at + |OldText(cs)|);
  }

  lemma InsertionInOrder(cs: seq<Change>, at: nat)
    requires cs != [] && cs[0].Inserted? && LieInOrder(cs[1..], at)
    ensures LieInOrder(cs, at)
  {
    assert OldText(cs) == OldText(cs[1..]);
    assert EditsOf(cs, at) == EditsOf(cs[1..], at)[at := Insert(cs[0].lines)];
    hide InOrder, OldText, EditsOf, StartsAfter;
    EditsStart(cs[1..], at);
    InOrderPut(EditsOf(cs[1..], at), at, Insert(cs[0].lines), at + |OldText(cs)|);
  }

  lemma CopyInOrder(cs: seq<Change>, at: nat)
    requires cs != [] && cs[0].Unchanged? && LieInOrder(cs[1..], at + |cs[0].lines|)
    ensures LieInOrder(cs, at)
  {
    CopySplit(cs, at);
    hide InOrder, OldText, NewText, EditsOf;
  }

  lemma {:induction false} EditsInOrder(cs: seq<Change>, at: nat)
    requires NoEmpty(cs)
    ensures LieInOrder(cs, at)
    decreases |cs|
  {
    if cs != [] {
      var n := if cs[0].Deleted? && |cs| > 1 && cs[1].Inserted? then 2 else 1;
      assert NoEmpty(cs[n..]) && cs[0].lines != [];
      hide LieInOrder, NoEmpty;
      EditsInOrder(cs[n..], at + |cs[0].lines|);
      if cs[0].Deleted? {
        DeletionInOrder(cs, at, n);
      } else if cs[0].Inserted? {
        EditsInOrder(cs[1..], at);
        InsertionInOrder(cs, at);
      } else {
        CopyInOrder(cs, at);
      }
    }
  }
}
