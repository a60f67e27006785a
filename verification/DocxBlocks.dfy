/** What the block scanner guarantees about blocks cut out of one text and put into another. */
module DocxBlocks {
  import opened Wrappers
  import opened Text
  import opened DocxScanner

  /** A string that is exactly one complete block. */
  ghost predicate IsBlockXml(raw: string) {
    BlockEnd(raw, 0) == Some(|raw|)
  }

  ghost predicate AllBlockXml(raws: seq<string>) {
    forall i :: 0 <= i < |raws| ==> IsBlockXml(raws[i])
  }

  function Concat(raws: seq<string>): string {
    if raws == [] then "" else raws[0] + Concat(raws[1..])
  }

  lemma ClosingForInRight(a: string, b: string, i: nat)
    ensures ClosingFor(a + b, |a| + i) == ClosingFor(b, i)
  {
    hide MatchesAt;
    MatchInRight(a, b, "<w:p", i);
    MatchInRight(a, b, "<w:tbl", i);
  }

  /** Whether a block starts at `i`, and where it ends, depends only on the text from `i` on. */
  lemma BlockEndInRight(a: string, b: string, i: nat)
    ensures BlockEnd(a + b, |a| + i) ==
            match BlockEnd(b, i) case None => None case Some(e) => Some(|a| + e)
  {
    hide MatchesAt, ClosingFor, Find;
    ClosingForInRight(a, b, i);
    match ClosingFor(b, i) {
      case None =>
      case Some((closing, offset)) =>
        FindInRight(a, b, closing, i + offset);
    }
  }

  lemma {:induction false} BlocksInRight(a: string, b: string, pos: nat)
    requires pos <= |b|
    ensures RawBlocks(a + b, |a| + pos) == RawBlocks(b, pos)
    decreases |b| - pos
  {
    hide BlockEnd;
    if pos < |b| {
      BlockEndInRight(a, b, pos);
      match BlockEnd(b, pos) {
        case Some(e) =>
          assert (a + b)[|a| + pos..|a| + e] == b[pos..e];
          BlocksInRight(a, b, e);
        case None =>
          BlocksInRight(a, b, pos + 1);
      }
    }
  }

  /** A tag with room behind it is the same tag before and after the text is cut. */
  lemma ClosingForInLeft(a: string, b: string, i: nat)
    requires i + 7 <= |a| || (MatchesAt(a, "<w:p", i) && i + 5 <= |a|)
    ensures ClosingFor(a + b, i) == ClosingFor(a, i)
  {
    MatchInLeft(a, b, "<w:p", i);
    if i + 7 <= |a| {
      MatchInLeft(a, b, "<w:tbl", i);
    } else {
      assert a[i + 3] == "<w:p"[3] != "<w:tbl"[3];
      assert (a + b)[i + 3] == a[i + 3];
    }
  }

  lemma RoomBehindTag(s: string, i: nat)
    requires BlockEnd(s, i).Some?
    ensures MatchesAt(s, "<w:p", i) || i + 8 <= BlockEnd(s, i).value
  {
  }

  /** A complete block stays the same block whatever text follows it. */
  lemma BlockEndInLeft(a: string, b: string, i: nat)
    requires BlockEnd(a, i).Some?
    ensures BlockEnd(a + b, i) == BlockEnd(a, i)
  {
    RoomBehindTag(a, i);
    ClosingForInLeft(a, b, i);
    hide MatchesAt, ClosingFor, Find;
    var (closing, offset) := ClosingFor(a, i).value;
    FindInLeft(a, b, closing, i + offset);
  }

  /** The text behind a complete block may be cut off. */
  lemma BlockEndBeforeCut(a: string, b: string, i: nat)
    requires BlockEnd(a + b, i).Some? && BlockEnd(a + b, i).value <= |a|
    ensures BlockEnd(a, i) == BlockEnd(a + b, i)
  {
    RoomBehindTag(a + b, i);
    if MatchesAt(a + b, "<w:p", i) {
      MatchInLeft(a, b, "<w:p", i);
    }
    ClosingForInLeft(a, b, i);
    hide MatchesAt, ClosingFor, Find;
    var (closing, offset) := ClosingFor(a, i).value;
    FindBeforeCut(a, b, closing, i + offset);
  }

  lemma FindBeforeCut(a: string, b: string, pat: string, from: nat)
    requires Find(a + b, pat, from).Some? && Find(a + b, pat, from).value + |pat| <= |a|
    ensures Find(a, pat, from) == Find(a + b, pat, from)
  {
    hide Find;
    var k := Find(a + b, pat, from).value;
    forall i: nat | i <= k
      ensures MatchesAt(a + b, pat, i) <==> MatchesAt(a, pat, i)
    {
      MatchInLeft(a, b, pat, i);
    }
  }

  lemma BlockEndOfSlice(s: string, i: nat)
    requires BlockEnd(s, i).Some?
    ensures IsBlockXml(s[i..BlockEnd(s, i).value])
  {
    hide BlockEnd;
    var e := BlockEnd(s, i).value;
    assert s == s[..i] + s[i..] && s[i..] == s[i..e] + s[e..];
    BlockEndInRight(s[..i], s[i..], 0);
    BlockEndBeforeCut(s[i..e], s[e..], 0);
  }

  /** Everything the scanner extracts is a complete block. */
  lemma {:induction false} ExtractedAreBlocks(s: string, pos: nat)
    ensures AllBlockXml(RawBlocks(s, pos))
    decreases |s| - pos
  {
    hide BlockEnd;
    if pos < |s| {
      match BlockEnd(s, pos) {
        case Some(e) =>
          BlockEndOfSlice(s, pos);
          ExtractedAreBlocks(s, e);
        case None =>
          ExtractedAreBlocks(s, pos + 1);
      }
    }
  }

  /** Scanning the concatenation of complete blocks, with any text behind, returns these blocks first. */
  lemma {:induction false} BlocksOfPrinted(raws: seq<string>, rest: string)
    requires AllBlockXml(raws)
    ensures RawBlocks(Concat(raws) + rest, 0) == raws + RawBlocks(rest, 0)
  {
    hide BlockEnd;
    if raws == [] {
      assert Concat(raws) + rest == rest;
    } else {
      var raw, tail := raws[0], Concat(raws[1..]) + rest;
      assert Concat(raws) + rest == raw + tail;
      BlockEndInLeft(raw, tail, 0);
      assert (raw + tail)[0..|raw|] == raw;
      BlocksInRight(raw, tail, 0);
      BlocksOfPrinted(raws[1..], rest);
      assert raws == [raw] + raws[1..];
    }
  }

  /** The scanner finds nothing exactly when no block starts anywhere. */
  lemma {:induction false} NoBlocksIff(s: string, pos: nat)
    ensures RawBlocks(s, pos) == [] <==> forall j :: pos <= j < |s| ==> BlockEnd(s, j).None?
    decreases |s| - pos
  {
    hide BlockEnd;
    if pos < |s| && BlockEnd(s, pos).None? {
      NoBlocksIff(s, pos + 1);
    }
  }

  lemma NoBlocksInPrefix(a: string, b: string)
    requires RawBlocks(a + b, 0) == []
    ensures RawBlocks(a, 0) == []
  {
    hide BlockEnd;
    NoBlocksIff(a + b, 0);
    NoBlocksIff(a, 0);
    forall j: nat | j < |a| && BlockEnd(a, j).Some?
      ensures BlockEnd(a + b, j).Some?
    {
      BlockEndInLeft(a, b, j);
    }
  }

  /** The position behind the last block the forward scanner finds. */
  ghost function LastEnd(s: string, pos: nat): nat
    decreases |s| - pos
  {
    if pos >= |s| then pos
    else match BlockEnd(s, pos)
      case Some(e) => if RawBlocks(s, e) == [] then e else LastEnd(s, e)
      case None => LastEnd(s, pos + 1)
  }

  /** The last block lies right before `LastEnd`, and no block starts behind it. */
  lemma {:induction false} LastBlock(s: string, pos: nat)
    requires RawBlocks(s, pos) != []
    ensures var raws, e := RawBlocks(s, pos), LastEnd(s, pos);
      var raw := raws[|raws| - 1];
      pos + |raw| <= e <= |s| && s[e - |raw|..e] == raw && RawBlocks(s, e) == []
    decreases |s| - pos
  {
    hide BlockEnd;
    match BlockEnd(s, pos) {
      case Some(e) =>
        if RawBlocks(s, e) != [] {
          LastBlock(s, e);
        }
      case None =>
        LastBlock(s, pos + 1);
    }
  }

  /** The closing marker ends the block, and occurs nowhere else in it. */
  lemma ClosingOnlyAtEnd(raw: string, i: nat)
    requires IsBlockXml(raw)
    ensures ClosingFor(raw, 0).Some?
    ensures var closing := ClosingFor(raw, 0).value.0;
      |closing| <= |raw| && MatchesAt(raw, closing, |raw| - |closing|)
    ensures var closing := ClosingFor(raw, 0).value.0;
      i + |closing| < |raw| ==> !MatchesAt(raw, closing, i)
  {
    if MatchesAt(raw, "<w:p", 0) && i < 4 {
      MatchedChar(raw, "<w:p", 0, i);
      assert "<w:p"[i] != "/>"[0];
    }
  }

  lemma ClosingHasNoInnerBracket(raw: string, k: nat)
    requires ClosingFor(raw, 0).Some? && 0 < k < |ClosingFor(raw, 0).value.0|
    ensures ClosingFor(raw, 0).value.0[k] != '<'
  {
  }

  /** A block's XML does not overlap a later copy of itself. */
  lemma NoSelfOverlap(s: string, raw: string, a: nat, q: nat)
    requires IsBlockXml(raw) && MatchesAt(s, raw, a) && a < q < a + |raw|
    ensures !MatchesAt(s, raw, q)
  {
    BlockStartsWithBracket(raw, 0);
    ClosingOnlyAtEnd(raw, 0);
    hide BlockEnd, ClosingFor;
    if MatchesAt(s, raw, q) {
      var closing := ClosingFor(raw, 0).value.0;
      var at := |raw| - |closing|;
      if q <= a + at {
        forall k | 0 <= k < |closing|
          ensures raw[a + at - q + k] == closing[k]
        {
          MatchedChar(raw, closing, at, k);
          MatchedChar(s, raw, a, at + k);
          MatchedChar(s, raw, q, a + at - q + k);
        }
        assert MatchesAt(raw, closing, a + at - q);
        ClosingOnlyAtEnd(raw, a + at - q);
      } else {
        MatchedChar(s, raw, q, 0);
        MatchedChar(s, raw, a, q - a);
        MatchedChar(raw, closing, at, q - a - at);
        ClosingHasNoInnerBracket(raw, q - a - at);
      }
    }
  }

  lemma BlockAtMatch(s: string, raw: string, q: nat)
    requires IsBlockXml(raw) && MatchesAt(s, raw, q)
    ensures BlockEnd(s, q).Some?
  {
    hide BlockEnd;
    var rest := s[q + |raw|..];
    assert s[q..q + |raw|] == raw;
    assert s == s[..q] + (raw + rest);
    BlockEndInLeft(raw, rest, 0);
    BlockEndInRight(s[..q], raw + rest, 0);
  }

  /** The source looks for the last block from the back; it finds it where the forward scanner left it. */
  lemma RFindAgreesWithScanner(s: string)
    requires RawBlocks(s, 0) != []
    ensures var raws, e := RawBlocks(s, 0), LastEnd(s, 0);
      var raw := raws[|raws| - 1];
      |raw| <= e <= |s| && RFind(s, raw, |s|) == Some(e - |raw|)
  {
    hide BlockEnd, RawBlocks, LastEnd, RFind;
    var raws, e := RawBlocks(s, 0), LastEnd(s, 0);
    var raw := raws[|raws| - 1];
    LastBlock(s, 0);
    ExtractedAreBlocks(s, 0);
    var a := e - |raw|;
    assert MatchesAt(s, raw, a) by {
      forall k | 0 <= k < |raw|
        ensures s[a + k] == raw[k]
      {
        assert s[a..e][k] == s[a + k];
      }
    }
    assert |raw| > 5;
    NoBlocksIff(s, e);
    forall q | a < q
      ensures !MatchesAt(s, raw, q)
    {
      if q < e {
        NoSelfOverlap(s, raw, a, q);
      } else if MatchesAt(s, raw, q) {
        BlockAtMatch(s, raw, q);
      }
    }
  }
}
