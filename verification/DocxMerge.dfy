/** The index-wise three-way merge of block lists, aware of tracked changes. */
module DocxMerge {
  import opened Numbers
  import opened Wrappers
  import opened Text
  import opened DocxScanner

  function Get(bs: seq<Block>, i: nat): Option<Block> {
    if i < |bs| then Some(bs[i]) else None
  }

  predicate Accepted(base: Block, side: Block) {
    DetectTransition(base.rawXml, side.rawXml) == Some(AcceptedTrackChanges)
  }

  /** Both sides accepted the tracked changes that the base block still had. */
  predicate BothAccepted(base: seq<Block>, ours: seq<Block>, theirs: seq<Block>, i: nat) {
    i < |base| && i < |ours| && i < |theirs| && Accepted(base[i], ours[i]) && Accepted(base[i], theirs[i])
  }

  /** Both sides added different text, or both changed the same text differently. */
  predicate ConflictAt(base: seq<Block>, ours: seq<Block>, theirs: seq<Block>, i: nat) {
    && i < |ours| && i < |theirs| && ours[i].text != theirs[i].text
    && (i < |base| ==>
          && ours[i].text != base[i].text && theirs[i].text != base[i].text
          && !BothAccepted(base, ours, theirs, i))
  }

  /** Their block is taken where ours is missing, or kept the text while theirs changed or accepted it. */
  predicate TakesTheirs(base: seq<Block>, ours: seq<Block>, theirs: seq<Block>, i: nat)
    requires i < Max(|ours|, |theirs|)
  {
    i >= |ours|
    || (&& i < |theirs| && i < |base| && ours[i].text == base[i].text
        && (theirs[i].text != base[i].text || Accepted(base[i], theirs[i]))
        && !BothAccepted(base, ours, theirs, i))
  }

  function Pick(base: seq<Block>, ours: seq<Block>, theirs: seq<Block>, i: nat): Block
    requires i < Max(|ours|, |theirs|)
  {
    if TakesTheirs(base, ours, theirs, i) then theirs[i] else ours[i]
  }

  function Picks(base: seq<Block>, ours: seq<Block>, theirs: seq<Block>, n: nat): (m: seq<Block>)
    requires n <= Max(|ours|, |theirs|)
    ensures |m| == n
  {
    seq(n, i requires 0 <= i < n => Pick(base, ours, theirs, i))
  }

  /** The merge by what it promises: no result on any conflict, otherwise one pick per index. */
  ghost function Merged(base: seq<Block>, ours: seq<Block>, theirs: seq<Block>): Option<seq<Block>> {
    if exists i: nat :: ConflictAt(base, ours, theirs, i) then None
    else Some(Picks(base, ours, theirs, Max(|ours|, |theirs|)))
  }

  method MergeBlocks(base: seq<Block>, ours: seq<Block>, theirs: seq<Block>) returns (r: Option<seq<Block>>)
    ensures r == Merged(base, ours, theirs)
  {
    hide DetectTransition;
    var maxLen := Max(|base|, Max(|ours|, |theirs|));
    ghost var both := Max(|ours|, |theirs|);
    var merged := [];
    for i := 0 to maxLen
      invariant merged == Picks(base, ours, theirs, if i <= both then i else both)
      invariant forall j: nat :: j < i ==> !ConflictAt(base, ours, theirs, j)
    {
      match (Get(base, i), Get(ours, i), Get(theirs, i)) {
        case (None, Some(o), None) => merged := merged + [o];
        case (None, None, Some(t)) => merged := merged + [t];
        case (None, Some(o), Some(t)) =>
          if o.text == t.text {
            merged := merged + [o];
          } else {
            assert ConflictAt(base, ours, theirs, i);
            return None;
          }
        case (Some(_), Some(o), None) => merged := merged + [o];
        case (Some(_), None, Some(t)) => merged := merged + [t];
        case (Some(_), None, None) =>
        case (Some(b), Some(o), Some(t)) =>
          var oursAccepted := DetectTransition(b.rawXml, o.rawXml);
          var theirsAccepted := DetectTransition(b.rawXml, t.rawXml);
          if oursAccepted == Some(AcceptedTrackChanges) && theirsAccepted == Some(AcceptedTrackChanges) {
            merged := merged + [o];
            continue;
          }
          if oursAccepted == Some(AcceptedTrackChanges) && t.text == b.text {
            merged := merged + [o];
            continue;
          }
          if theirsAccepted == Some(AcceptedTrackChanges) && o.text == b.text {
            merged := merged + [t];
            continue;
          }
          if o.text == t.text {
            merged := merged + [o];
          } else if o.text == b.text {
            merged := merged + [t];
          } else if t.text == b.text {
            merged := merged + [o];
          } else {
            assert ConflictAt(base, ours, theirs, i);
            return None;
          }
        case (None, None, None) =>
          assert false;
      }
    }
    r := Some(merged);
  }

  /** The verdict does not depend on which side is called ours. */
  lemma VerdictIsSymmetric(base: seq<Block>, ours: seq<Block>, theirs: seq<Block>)
    ensures Merged(base, ours, theirs).Some? <==> Merged(base, theirs, ours).Some?
  {
    forall i: nat
      ensures ConflictAt(base, ours, theirs, i) <==> ConflictAt(base, theirs, ours, i)
    {
    }
  }

  /** Swapping the sides keeps every text, except where both accepted tracked changes with different text. */
  lemma SwapKeepsText(base: seq<Block>, ours: seq<Block>, theirs: seq<Block>, i: nat)
    requires Merged(base, ours, theirs).Some? && i < Max(|ours|, |theirs|)
    ensures Merged(base, theirs, ours).Some?
    ensures
      Merged(base, ours, theirs).value[i].text == Merged(base, theirs, ours).value[i].text
      <==> !(BothAccepted(base, ours, theirs, i) && ours[i].text != theirs[i].text)
  {
    hide DetectTransition;
    VerdictIsSymmetric(base, ours, theirs);
    assert !ConflictAt(base, ours, theirs, i);
  }

  /** A block that still carries the tracked changes of the base has not accepted them. */
  lemma NoAcceptanceWithoutChange(b: Block)
    ensures !Accepted(b, b)
  {
  }

  /**
   * If we changed nothing, the merge never conflicts and carries their text; it is exactly their text
   * unless they removed blocks at the end, which the merge puts back.
   */
  lemma UnchangedSideYields(base: seq<Block>, theirs: seq<Block>)
    ensures Merged(base, base, theirs).Some?
    ensures var m := Merged(base, base, theirs).value;
      && |m| == Max(|base|, |theirs|)
      && (forall i :: 0 <= i < |m| ==> m[i].text == if i < |theirs| then theirs[i].text else base[i].text)
    ensures var m := Merged(base, base, theirs).value;
      |m| == |theirs| <==> |base| <= |theirs|
  {
    hide DetectTransition;
    forall i: nat
      ensures !ConflictAt(base, base, theirs, i)
    {
    }
    var m := Merged(base, base, theirs).value;
    forall i | 0 <= i < |m|
      ensures m[i].text == if i < |theirs| then theirs[i].text else base[i].text
    {
      if i < |base| {
        NoAcceptanceWithoutChange(base[i]);
      }
    }
  }

  /**
   * If we changed nothing, each block they have is taken as they have it, except where they changed only the
   * formatting: then our block is kept, unless they accepted tracked changes in it.
   */
  lemma BlockYieldsIff(base: seq<Block>, theirs: seq<Block>, i: nat)
    requires i < |theirs|
    ensures Merged(base, base, theirs).Some? && i < |Merged(base, base, theirs).value|
    ensures Merged(base, base, theirs).value[i] == theirs[i] <==>
            (i < |base| && theirs[i].text == base[i].text && !Accepted(base[i], theirs[i]) ==> theirs[i] == base[i])
  {
    hide DetectTransition;
    UnchangedSideYields(base, theirs);
    if i < |base| {
      NoAcceptanceWithoutChange(base[i]);
    }
  }

  lemma NoAcceptanceWithoutMarkers(b: Block, side: Block)
    requires DetectTrackChanges(b.rawXml) == Clean
    ensures !Accepted(b, side)
  {
    hide DetectTrackChanges;
  }

  /** A block reformatted by one side only, where the base has no tracked changes: ours stays, theirs is dropped. */
  lemma FormattingIsDropped(base: seq<Block>, i: nat, formatted: Block)
    requires i < |base| && formatted.text == base[i].text && DetectTrackChanges(base[i].rawXml) == Clean
    ensures Merged(base, base, base[i := formatted]) == Some(base)
    ensures Merged(base, base[i := formatted], base) == Some(base[i := formatted])
  {
    hide DetectTransition, DetectTrackChanges, Merged;
    var theirs := base[i := formatted];
    UnchangedSideYields(base, theirs);
    VerdictIsSymmetric(base, base, theirs);
    NoAcceptanceWithoutMarkers(base[i], formatted);
    forall j: nat | j < |base|
      ensures Pick(base, base, theirs, j) == base[j] && Pick(base, theirs, base, j) == theirs[j]
    {
      NoAcceptanceWithoutChange(base[j]);
    }
    MergedPicks(base, base, theirs, base);
    MergedPicks(base, theirs, base, theirs);
  }

  lemma MergedPicks(base: seq<Block>, ours: seq<Block>, theirs: seq<Block>, m: seq<Block>)
    requires Merged(base, ours, theirs).Some? && |m| == Max(|ours|, |theirs|)
    requires forall j: nat :: j < |m| ==> Pick(base, ours, theirs, j) == m[j]
    ensures Merged(base, ours, theirs) == Some(m)
  {
    hide ConflictAt, Pick;
    assert Picks(base, ours, theirs, |m|) == m;
  }

  // ---- tracked changes, block by block ----

  /** The XML holds a tag of a tracked insertion, deletion, reformatting or move, or of a comment. */
  ghost predicate HoldsRevision(xml: string) {
    || Occurs(xml, "<w:ins ") || Occurs(xml, "<w:ins>") || Occurs(xml, "<w:del ") || Occurs(xml, "<w:del>")
    || Occurs(xml, "<w:rPrChange ") || Occurs(xml, "<w:rPrChange>")
    || Occurs(xml, "<w:moveFrom ") || Occurs(xml, "<w:moveFrom>")
    || Occurs(xml, "<w:moveTo ") || Occurs(xml, "<w:moveTo>")
    || Occurs(xml, "<w:commentRangeStart ") || Occurs(xml, "<w:commentRangeEnd ")
  }

  lemma ContainsIff(xml: string, pat: string)
    ensures Contains(xml, pat) <==> Occurs(xml, pat)
  {
  }

  lemma RevisionIff(xml: string)
    ensures DetectTrackChanges(xml) == HasTrackChanges <==> HoldsRevision(xml)
    ensures DetectTrackChanges(xml) == HasTrackChanges || DetectTrackChanges(xml) == Clean
  {
    forall pat
      ensures Contains(xml, pat) <==> Occurs(xml, pat)
    {
      ContainsIff(xml, pat);
    }
    hide Contains, Occurs;
  }

  lemma AcceptedIff(base: Block, side: Block)
    ensures Accepted(base, side) <==> HoldsRevision(base.rawXml) && !HoldsRevision(side.rawXml)
  {
    RevisionIff(base.rawXml);
    RevisionIff(side.rawXml);
    hide DetectTrackChanges, HoldsRevision;
  }

  /** Both sides changed the text, and differently. */
  predicate TextsDiffer(b: Block, o: Block, t: Block) {
    b.text != o.text && o.text != t.text && b.text != t.text
  }

  /** The revisions of the base are gone on this side. */
  ghost predicate RevisionsGone(b: Block, side: Block) {
    HoldsRevision(b.rawXml) && !HoldsRevision(side.rawXml)
  }

  /** The merge of three blocks at one index, by their texts and by the revisions they hold. */
  lemma OneBlock(b: Block, o: Block, t: Block)
    ensures RevisionsGone(b, o) && RevisionsGone(b, t) ==> Merged([b], [o], [t]) == Some([o])
    ensures TextsDiffer(b, o, t) && !(RevisionsGone(b, o) && RevisionsGone(b, t)) ==> Merged([b], [o], [t]) == None
    ensures RevisionsGone(b, t) && !RevisionsGone(b, o) && o.text == b.text ==> Merged([b], [o], [t]) == Some([t])
    ensures RevisionsGone(b, o) && !RevisionsGone(b, t) && t.text == b.text ==> Merged([b], [o], [t]) == Some([o])
    ensures !RevisionsGone(b, t) && o.text == b.text && t.text != b.text ==> Merged([b], [o], [t]) == Some([t])
    ensures !RevisionsGone(b, t) && o.text == b.text && t.text == b.text ==> Merged([b], [o], [t]) == Some([o])
    ensures !RevisionsGone(b, o) && o.text != b.text && t.text == b.text ==> Merged([b], [o], [t]) == Some([o])
    ensures o.text != b.text && o.text == t.text ==> Merged([b], [o], [t]) == Some([o])
  {
    AcceptedIff(b, o);
    AcceptedIff(b, t);
    hide Accepted, HoldsRevision;
    var base, ours, theirs := [b], [o], [t];
    assert (exists i: nat :: ConflictAt(base, ours, theirs, i)) <==> ConflictAt(base, ours, theirs, 0);
    assert Picks(base, ours, theirs, 1) == [Pick(base, ours, theirs, 0)];
  }

  /** The blocks at this index do not merge, or both sides added different texts there. */
  ghost predicate FailsAt(base: seq<Block>, ours: seq<Block>, theirs: seq<Block>, i: nat) {
    && i < |ours| && i < |theirs|
    && if i < |base| then Merged([base[i]], [ours[i]], [theirs[i]]).None? else ours[i].text != theirs[i].text
  }

  /** Index by index: the merge of lists is that of their blocks, a conflict anywhere being a conflict of the whole. */
  lemma IndexByIndex(base: seq<Block>, ours: seq<Block>, theirs: seq<Block>)
    ensures Merged(base, ours, theirs).None? <==> exists i: nat :: FailsAt(base, ours, theirs, i)
    ensures Merged(base, ours, theirs).Some? ==>
      forall i: nat :: i < |base| && i < |ours| && i < |theirs| ==>
        Merged([base[i]], [ours[i]], [theirs[i]]) == Some([Merged(base, ours, theirs).value[i]])
    ensures Merged(base, ours, theirs).Some? ==>
      && |Merged(base, ours, theirs).value| == Max(|ours|, |theirs|)
      && (forall i: nat :: |theirs| <= i < |ours| ==> Merged(base, ours, theirs).value[i] == ours[i])
      && (forall i: nat :: |ours| <= i < |theirs| ==> Merged(base, ours, theirs).value[i] == theirs[i])
      && (forall i: nat :: |base| <= i < |ours| ==> Merged(base, ours, theirs).value[i] == ours[i])
  {
    hide Accepted;
    forall i: nat | i < |base| && i < |ours| && i < |theirs|
      ensures Merged([base[i]], [ours[i]], [theirs[i]]) ==
              if ConflictAt(base, ours, theirs, i) then None else Some([Pick(base, ours, theirs, i)])
    {
      AtIndex(base, ours, theirs, i);
    }
    forall i: nat
      ensures FailsAt(base, ours, theirs, i) <==> ConflictAt(base, ours, theirs, i)
    {
    }
    hide Pick, FailsAt;
    if Merged(base, ours, theirs).Some? {
      assert forall i: nat :: !ConflictAt(base, ours, theirs, i);
    }
  }

  lemma AtIndex(base: seq<Block>, ours: seq<Block>, theirs: seq<Block>, i: nat)
    requires i < |base| && i < |ours| && i < |theirs|
    ensures Merged([base[i]], [ours[i]], [theirs[i]]) ==
            if ConflictAt(base, ours, theirs, i) then None else Some([Pick(base, ours, theirs, i)])
  {
    hide Accepted;
    var b, o, t := [base[i]], [ours[i]], [theirs[i]];
    assert (exists j: nat :: ConflictAt(b, o, t, j)) <==> ConflictAt(b, o, t, 0);
    assert Picks(b, o, t, 1) == [Pick(b, o, t, 0)];
  }
}
