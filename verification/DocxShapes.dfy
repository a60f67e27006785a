/** The scanner by shapes: what a complete paragraph or table looks like, and what the scanner makes of a body. */
module DocxShapes {
  import opened Wrappers
  import opened Text
  import opened DocxScanner
  import opened DocxBlocks
  import opened DocxMerge

  /** An opening text, then anything, then the first closing text behind the opening one, which ends it all. */
  ghost predicate Encloses(raw: string, open: string, close: string) {
    && |open| + |close| <= |raw| && MatchesAt(raw, open, 0) && MatchesAt(raw, close, |raw| - |close|)
    && forall j: nat :: |open| <= j < |raw| - |close| ==> !MatchesAt(raw, close, j)
  }

  ghost predicate IsEmptyParagraph(raw: string) {
    Encloses(raw, "<w:p", "/>") && raw[4] == '/'
  }

  ghost predicate IsParagraph(raw: string) {
    Encloses(raw, "<w:p>", "</w:p>") || Encloses(raw, "<w:p ", "</w:p>")
  }

  ghost predicate IsTable(raw: string) {
    || Encloses(raw, "<w:tbl>", "</w:tbl>") || Encloses(raw, "<w:tbl ", "</w:tbl>")
    || Encloses(raw, "<w:tbl/", "</w:tbl>")
  }

  /** A complete block, written out. */
  ghost predicate IsShape(raw: string) {
    IsEmptyParagraph(raw) || IsParagraph(raw) || IsTable(raw)
  }

  /** What is recorded of it. */
  ghost predicate Records(b: Block, raw: string) {
    && b.rawXml == raw
    && (IsTable(raw) ==> b.kind == Table) && (IsParagraph(raw) || IsEmptyParagraph(raw) ==> b.kind == Paragraph)
    && (IsEmptyParagraph(raw) ==> b.text == "" && b.trackChanges == Clean)
    && (IsParagraph(raw) || IsTable(raw) ==>
          && b.text == TextFrom(raw, 0)
          && b.trackChanges == if HoldsRevision(raw) then HasTrackChanges else Clean)
  }

  /** The tag in front does not hold a closing marker, so looking for one may start anywhere in it. */
  lemma EnclosesIff(raw: string, open: string, close: string, from: nat)
    requires MatchesAt(raw, open, 0) && from <= |open| && |open| > 1 && |close| > 1
    requires forall j :: from <= j < |open| ==> open[j] != close[0] || (j == 0 && open[1] != close[1])
    ensures Encloses(raw, open, close) <==> Find(raw, close, from) == Some(|raw| - |close|)
  {
    forall j | from <= j < |open|
      ensures !MatchesAt(raw, close, j)
    {
      if MatchesAt(raw, close, j) {
        MatchedChar(raw, open, 0, j);
        MatchedChar(raw, open, 0, 1);
        MatchedChar(raw, close, j, 0);
        MatchedChar(raw, close, j, 1);
      }
    }
    if Encloses(raw, open, close) {
      FindsAt(raw, close, from, |raw| - |close|);
    }
  }

  lemma TagEnd(raw: string, tag: string, c: char, open: string)
    requires open == tag + [c]
    ensures MatchesAt(raw, open, 0) <==> MatchesAt(raw, tag, 0) && |raw| > |tag| && raw[|tag|] == c
  {
    if MatchesAt(raw, open, 0) {
      MatchedChar(raw, open, 0, |tag|);
      forall k | 0 <= k < |tag|
        ensures raw[0 + k] == tag[k]
      {
        MatchedChar(raw, open, 0, k);
      }
    }
  }

  /** Which opening texts a block in front can have. */
  lemma Tags(raw: string)
    ensures MatchesAt(raw, "<w:p>", 0) <==> MatchesAt(raw, "<w:p", 0) && |raw| > 4 && raw[4] == '>'
    ensures MatchesAt(raw, "<w:p ", 0) <==> MatchesAt(raw, "<w:p", 0) && |raw| > 4 && raw[4] == ' '
    ensures MatchesAt(raw, "<w:tbl>", 0) <==> MatchesAt(raw, "<w:tbl", 0) && |raw| > 6 && raw[6] == '>'
    ensures MatchesAt(raw, "<w:tbl ", 0) <==> MatchesAt(raw, "<w:tbl", 0) && |raw| > 6 && raw[6] == ' '
    ensures MatchesAt(raw, "<w:tbl/", 0) <==> MatchesAt(raw, "<w:tbl", 0) && |raw| > 6 && raw[6] == '/'
    ensures !(MatchesAt(raw, "<w:p", 0) && MatchesAt(raw, "<w:tbl", 0))
  {
    TagEnd(raw, "<w:p", '>', "<w:p>");
    TagEnd(raw, "<w:p", ' ', "<w:p ");
    TagEnd(raw, "<w:tbl", '>', "<w:tbl>");
    TagEnd(raw, "<w:tbl", ' ', "<w:tbl ");
    TagEnd(raw, "<w:tbl", '/', "<w:tbl/");
    if MatchesAt(raw, "<w:p", 0) && MatchesAt(raw, "<w:tbl", 0) {
      MatchedChar(raw, "<w:p", 0, 3);
      MatchedChar(raw, "<w:tbl", 0, 3);
    }
  }

  lemma ParagraphIff(raw: string)
    requires MatchesAt(raw, "<w:p", 0)
    ensures |raw| > 4 && raw[4] == '/' ==> (IsBlockXml(raw) <==> IsEmptyParagraph(raw)) && !IsParagraph(raw)
    ensures !(|raw| > 4 && raw[4] == '/') ==> (IsBlockXml(raw) <==> IsParagraph(raw)) && !IsEmptyParagraph(raw)
    ensures !IsTable(raw)
  {
    Tags(raw);
    if |raw| > 4 {
      if raw[4] == '/' {
        EnclosesIff(raw, "<w:p", "/>", 4);
      } else if raw[4] == '>' {
        EnclosesIff(raw, "<w:p>", "</w:p>", 0);
      } else if raw[4] == ' ' {
        EnclosesIff(raw, "<w:p ", "</w:p>", 0);
      }
    }
    hide Find, MatchesAt;
  }

  lemma TableIff(raw: string)
    requires !MatchesAt(raw, "<w:p", 0)
    ensures IsBlockXml(raw) <==> IsTable(raw)
    ensures !IsEmptyParagraph(raw) && !IsParagraph(raw)
  {
    Tags(raw);
    if MatchesAt(raw, "<w:tbl", 0) && |raw| > 6 {
      if raw[6] == '>' {
        EnclosesIff(raw, "<w:tbl>", "</w:tbl>", 0);
      } else if raw[6] == ' ' {
        EnclosesIff(raw, "<w:tbl ", "</w:tbl>", 0);
      } else if raw[6] == '/' {
        EnclosesIff(raw, "<w:tbl/", "</w:tbl>", 0);
      }
    }
    hide Find, MatchesAt;
  }

  lemma RecordOf(raw: string)
    requires IsShape(raw)
    ensures Records(MakeBlock(raw), raw)
  {
    if MatchesAt(raw, "<w:p", 0) {
      ParagraphIff(raw);
    } else {
      TableIff(raw);
    }
    RevisionIff(raw);
    hide Encloses, MatchesAt, DetectTrackChanges, HoldsRevision, TextFrom;
  }

  /** The complete blocks the scanner knows are exactly the shapes, and this is the record it makes of each. */
  lemma ShapeIff(raw: string)
    ensures IsBlockXml(raw) <==> IsShape(raw)
    ensures IsShape(raw) ==> Records(MakeBlock(raw), raw)
  {
    if MatchesAt(raw, "<w:p", 0) {
      ParagraphIff(raw);
    } else {
      TableIff(raw);
    }
    if IsShape(raw) {
      RecordOf(raw);
    }
    hide *;
  }

  /** No shape starts in the first `n` characters. */
  ghost predicate NoShapeStarts(s: string, n: nat) {
    forall i: nat, e: nat | i < n && i <= e <= |s| :: !IsShape(s[i..e])
  }

  lemma NoShapeNoBlock(s: string, i: nat)
    requires i < |s| && NoShapeStarts(s, i + 1)
    ensures BlockEnd(s, i).None?
  {
    hide BlockEnd, IsShape;
    if BlockEnd(s, i).Some? {
      BlockEndOfSlice(s, i);
      ShapeIff(s[i..BlockEnd(s, i).value]);
    }
  }

  lemma ShapeInFront(raw: string, rest: string)
    requires IsShape(raw)
    ensures RawBlocks(raw + rest, 0) == [raw] + RawBlocks(rest, 0)
  {
    ShapeIff(raw);
    hide IsBlockXml, IsShape;
    assert [raw][1..] == [];
    assert Concat([raw]) == raw;
    BlocksOfPrinted([raw], rest);
  }

  /** The first shape in a body gives the first block, and the text behind it the others. */
  lemma FirstBlock(front: string, raw: string, rest: string)
    requires IsShape(raw) && NoShapeStarts(front + (raw + rest), |front|)
    ensures var bs := Blocks(front + (raw + rest));
      bs != [] && Records(bs[0], raw) && bs[1..] == Blocks(rest)
  {
    hide BlockEnd, IsShape, Records, MakeBlock;
    var s := front + (raw + rest);
    forall i | 0 <= i < |front|
      ensures BlockEnd(s, i).None?
    {
      NoShapeNoBlock(s, i);
    }
    SkipTo(s, 0, |front|);
    BlocksInRight(front, raw + rest, 0);
    ShapeInFront(raw, rest);
    ShapeIff(raw);
  }

  /** A body in which no shape starts has no blocks. */
  lemma NoBlock(s: string)
    requires NoShapeStarts(s, |s|)
    ensures Blocks(s) == []
  {
    hide BlockEnd, IsShape;
    forall i | 0 <= i < |s|
      ensures BlockEnd(s, i).None?
    {
      NoShapeNoBlock(s, i);
    }
    NoBlocksIff(s, 0);
  }
}
