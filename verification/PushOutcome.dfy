/** What one push leaves behind, carried through or stopped on the way. */
module PushOutcome {
  import opened Wrappers
  import opened PatchGraph
  import opened PushProtocol

  /** The first steps of a push, and its end there. */
  function Stopped(k: nat, written: bool, n: nat): seq<Event>
    requires 0 < n < 4
  {
    if n == 1 then [Prepare(k, written), Leave(k)]
    else if n == 2 then [Prepare(k, written), Deliver(k), Leave(k)]
    else [Prepare(k, written), Deliver(k), Record(k), Leave(k)]
  }

  lemma {:induction false} RunInFront(s: State, e: Event, events: seq<Event>)
    ensures Run(s, [e] + events) == Run(Apply(s, e), events)
    decreases |events|
  {
    hide Apply;
    if events == [] {
      assert [e] + events == [e] && [e][..0] == [];
    } else {
      var last := |events| - 1;
      assert ([e] + events)[..last + 1] == [e] + events[..last];
      RunInFront(s, e, events[..last]);
    }
  }

  /** The state right behind the preparation. */
  ghost function Begun(s: State, k: nat, written: bool, stage: Stage): State {
    s.(hub := if stage == Prepared then s.hub else s.hub + PatchesToPush(s),
       lastPushed := if stage == Recorded then Some(HeadId(s)) else s.lastPushed,
       checkpoint := if !written || s.checkpoint.Some? then s.checkpoint else s.lastPushed,
       pushes := s.pushes[k := Push(PatchesToPush(s), HeadId(s), stage)])
  }

  lemma Prepares(s: State, k: nat, written: bool)
    ensures Apply(s, Prepare(k, written)) == Begun(s, k, written, Prepared)
  {
    hide PatchesToPush, HeadId;
  }

  lemma Delivers(s: State, k: nat, written: bool)
    ensures Apply(Begun(s, k, written, Prepared), Deliver(k)) == Begun(s, k, written, Delivered)
  {
    hide PatchesToPush, HeadId;
    var p := Push(PatchesToPush(s), HeadId(s), Prepared);
    assert s.pushes[k := p][k := p.(stage := Delivered)] == s.pushes[k := p.(stage := Delivered)];
  }

  lemma Records(s: State, k: nat, written: bool)
    ensures Apply(Begun(s, k, written, Delivered), Record(k)) == Begun(s, k, written, Recorded)
  {
    hide PatchesToPush, HeadId;
    var p := Push(PatchesToPush(s), HeadId(s), Delivered);
    assert s.pushes[k := p][k := p.(stage := Recorded)] == s.pushes[k := p.(stage := Recorded)];
  }

  lemma Ends(s: State, k: nat, written: bool, stage: Stage)
    requires k !in s.pushes
    ensures Apply(Begun(s, k, written, stage), Leave(k)) == Begun(s, k, written, stage).(pushes := s.pushes)
    ensures Apply(Begun(s, k, written, stage), ClearCheckpoint(k)) ==
            Begun(s, k, written, stage).(pushes := s.pushes, checkpoint := None)
  {
    hide PatchesToPush, HeadId;
    var p := Push(PatchesToPush(s), HeadId(s), stage);
    assert s.pushes[k := p] - {k} == s.pushes;
  }

  lemma RunOfNone(s: State)
    ensures Run(s, []) == s
  {
  }

  /** A push that nothing interrupts moves what it sends to the hub and HEAD into the config, and nothing else. */
  lemma WholePushDoes(s: State, k: nat)
    requires Enabled(s, Prepare(k, true))
    ensures Run(s, WholePush(k)) ==
            s.(hub := s.hub + PatchesToPush(s), lastPushed := Some(HeadId(s)), checkpoint := None)
  {
    hide PatchesToPush, HeadId, Apply, Run;
    var p, d, r, c := Prepare(k, true), Deliver(k), Record(k), ClearCheckpoint(k);
    assert WholePush(k) == [p] + [d, r, c] && [d, r, c] == [d] + [r, c] && [r, c] == [r] + [c] && [c] == [c] + [];
    var s1, s2, s3 := Begun(s, k, true, Prepared), Begun(s, k, true, Delivered), Begun(s, k, true, Recorded);
    Prepares(s, k, true);
    Delivers(s, k, true);
    Records(s, k, true);
    Ends(s, k, true, Recorded);
    RunInFront(s, p, [d, r, c]);
    RunInFront(s1, d, [r, c]);
    RunInFront(s2, r, [c]);
    RunInFront(s3, c, []);
    RunOfNone(Apply(s3, c));
  }

  lemma StopsPrepared(s: State, k: nat, written: bool)
    requires k !in s.pushes
    ensures Run(s, Stopped(k, written, 1)) == Begun(s, k, written, Prepared).(pushes := s.pushes)
  {
    hide Begun, Apply, Run;
    var p, l := Prepare(k, written), Leave(k);
    assert [p, l] == [p] + [l] && [l] == [l] + [];
    Prepares(s, k, written);
    Ends(s, k, written, Prepared);
    RunInFront(s, p, [l]);
    RunInFront(Apply(s, p), l, []);
    RunOfNone(Apply(Apply(s, p), l));
  }

  lemma StopsDelivered(s: State, k: nat, written: bool)
    requires k !in s.pushes
    ensures Run(s, Stopped(k, written, 2)) == Begun(s, k, written, Delivered).(pushes := s.pushes)
  {
    hide Begun, Apply, Run;
    var p, d, l := Prepare(k, written), Deliver(k), Leave(k);
    assert [p, d, l] == [p] + [d, l] && [d, l] == [d] + [l] && [l] == [l] + [];
    Prepares(s, k, written);
    Delivers(s, k, written);
    Ends(s, k, written, Delivered);
    RunInFront(s, p, [d, l]);
    RunInFront(Apply(s, p), d, [l]);
    RunInFront(Apply(Apply(s, p), d), l, []);
    RunOfNone(Apply(Apply(Apply(s, p), d), l));
  }

  lemma StopsRecorded(s: State, k: nat, written: bool)
    requires k !in s.pushes
    ensures Run(s, Stopped(k, written, 3)) == Begun(s, k, written, Recorded).(pushes := s.pushes)
  {
    hide Begun, Apply, Run;
    var p, d, r, l := Prepare(k, written), Deliver(k), Record(k), Leave(k);
    var s2 := Begun(s, k, written, Delivered);
    assert [p, d, r, l] == [p] + [d, r, l] && [d, r, l] == [d] + [r, l] && [r, l] == [r] + [l] && [l] == [l] + [];
    Prepares(s, k, written);
    Delivers(s, k, written);
    Records(s, k, written);
    Ends(s, k, written, Recorded);
    RunInFront(s, p, [d, r, l]);
    RunInFront(Apply(s, p), d, [r, l]);
    RunInFront(s2, r, [l]);
    RunInFront(Apply(s2, r), l, []);
    RunOfNone(Apply(Apply(s2, r), l));
  }

  /**
   * A push that stops behind its `n`-th step. The reference it was prepared on stays behind as the checkpoint, so
   * that the next push sends the same again, unless it was recorded with no checkpoint written or known.
   */
  lemma StoppedPushIsRepeated(s: State, k: nat, written: bool, n: nat)
    requires Enabled(s, Prepare(k, written)) && 0 < n < 4
    ensures var s' := Run(s, Stopped(k, written, n));
      && s' == s.(hub := if n >= 2 then s.hub + PatchesToPush(s) else s.hub,
                  lastPushed := if n == 3 then Some(HeadId(s)) else s.lastPushed,
                  checkpoint := if !written || s.checkpoint.Some? then s.checkpoint else s.lastPushed)
      && (n < 3 || s.checkpoint.Some? || (written && s.lastPushed.Some?) ==> PatchesToPush(s') == PatchesToPush(s))
  {
    if n == 1 {
      StopsPrepared(s, k, written);
    } else if n == 2 {
      StopsDelivered(s, k, written);
    } else {
      StopsRecorded(s, k, written);
    }
    hide HeadId, Run, Stopped, KnownSet, FromBranch;
    if n < 3 || s.checkpoint.Some? || (written && s.lastPushed.Some?) {
      SendsBy(s, Run(s, Stopped(k, written, n)));
    }
  }

  /** What is sent depends on the patches, the branches and the reference. */
  lemma SendsBy(s: State, s': State)
    requires s'.g == s.g && s'.branches == s.branches && Reference(s') == Reference(s)
    ensures PatchesToPush(s') == PatchesToPush(s)
  {
    hide KnownSet, IsAncestorOrSelf;
    forall known, x
      ensures FromBranch(s', known, x) <==> FromBranch(s, known, x)
    {
    }
  }
}
