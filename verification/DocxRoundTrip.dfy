/** Printing a merge and parsing it again: what comes back, and when the parse fails. */
module DocxRoundTrip {
  import opened Numbers
  import opened Wrappers
  import opened Text
  import opened DocxScanner
  import opened DocxBlocks
  import opened DocxMerge
  import opened DocxBody

  /** A block as the scanner makes it, free of the closing body tag. */
  ghost predicate Scanned(b: Block) {
    b == MakeBlock(b.rawXml) && CleanBlock(b.rawXml)
  }

  ghost predicate AllScanned(bs: seq<Block>) {
    forall i :: 0 <= i < |bs| ==> Scanned(bs[i])
  }

  lemma RawOfMake(raw: string)
    ensures MakeBlock(raw).rawXml == raw
  {
    hide TextFrom, DetectTrackChanges, MatchesAt;
  }

  lemma ParsedAreScanned(xml: string)
    requires ParseBody(xml).Parsed?
    ensures AllScanned(ParseBody(xml).body.blocks)
  {
    hide ParseBody, RawBlocks, MakeBlock, CleanBlock, Occurs, Trailing;
    var tagStart, gt, close := ParsedText(xml);
    var content := xml[gt + 1..close];
    RawBlocksClean(content, 0);
    forall i | 0 <= i < |Blocks(content)|
      ensures Scanned(Blocks(content)[i])
    {
      RawOfMake(RawBlocks(content, 0)[i]);
    }
  }

  lemma MergeIsScanned(base: seq<Block>, ours: seq<Block>, theirs: seq<Block>)
    requires AllScanned(ours) && AllScanned(theirs) && Merged(base, ours, theirs).Some?
    ensures AllScanned(Merged(base, ours, theirs).value)
  {
    hide Scanned, TakesTheirs;
    var m := Merged(base, ours, theirs).value;
    forall i | 0 <= i < |m|
      ensures Scanned(m[i])
    {
      assert m[i] == Pick(base, ours, theirs, i);
      ShorterSideIsNotTaken(base, ours, theirs, i);
    }
  }

  lemma ShorterSideIsNotTaken(base: seq<Block>, ours: seq<Block>, theirs: seq<Block>, i: nat)
    requires i < Max(|ours|, |theirs|)
    ensures TakesTheirs(base, ours, theirs, i) ==> i < |theirs|
    ensures !TakesTheirs(base, ours, theirs, i) ==> i < |ours|
  {
    hide Accepted;
  }

  /** The suffix that a second parse can still cut its one character from. */
  predicate SuffixSurvives(suffix: string) {
    suffix != "" && IsAscii(suffix[0])
  }

  function TrailingAfter(trailing: string, merged: seq<Block>): string {
    if merged == [] then TrimEnd(trailing) else trailing
  }

  /** The tag is long enough, and nothing closes the body within it. */
  lemma HeadIsTag(xml: string, tagStart: nat, gt: nat, close: nat)
    requires ParsedAt(xml, tagStart, gt, close)
    ensures tagStart + |OPEN| <= gt && !Occurs(xml[..gt + 1], CLOSE) && EndsTag(xml[..gt + 1])
  {
    var head := xml[..gt + 1];
    MatchedChar(xml, ">", gt, 0);
    assert forall k :: 0 <= k < |OPEN| ==> OPEN[k] != '>';
    assert tagStart + |OPEN| <= gt by {
      if gt < tagStart + |OPEN| {
        MatchedChar(xml, OPEN, tagStart, gt - tagStart);
      }
    }
    hide Find, MatchesAt;
    assert xml == head + xml[gt + 1..];
    forall j: nat
      ensures !MatchesAt(head, CLOSE, j)
    {
      if j + |CLOSE| <= |head| {
        MatchInLeft(head, xml[gt + 1..], CLOSE, j);
      } else {
        TooShort(head, CLOSE, j);
      }
    }
  }

  lemma HeadFoundAgain(xml: string, rest: string, tagStart: nat, gt: nat, close: nat)
    requires ParsedAt(xml, tagStart, gt, close)
    ensures var out := xml[..gt + 1] + rest;
      Find(out, OPEN, 0) == Some(tagStart) && Find(out, ">", tagStart) == Some(gt)
    ensures !Occurs(xml[..gt + 1], CLOSE) && EndsTag(xml[..gt + 1])
  {
    HeadIsTag(xml, tagStart, gt, close);
    var head := xml[..gt + 1];
    hide Find, MatchesAt, Occurs, EndsTag;
    assert xml == head + xml[gt + 1..];
    FindBeforeCut(head, xml[gt + 1..], OPEN, 0);
    FindInLeft(head, rest, OPEN, 0);
    FindBeforeCut(head, xml[gt + 1..], ">", tagStart);
    FindInLeft(head, rest, ">", tagStart);
  }

  /** How a text parses whose three tags are known. */
  lemma ParseKnown(head: string, content: string, suffix: string, tagStart: nat)
    requires tagStart < |head|
    requires var out := head + content + (CLOSE + suffix);
      && Find(out, OPEN, 0) == Some(tagStart) && Find(out, ">", tagStart) == Some(|head| - 1)
      && Find(out, CLOSE, 0) == Some(|head + content|)
    ensures ParseBody(head + content + (CLOSE + suffix)) ==
            if SuffixSurvives(suffix) then
              Parsed(BodyParse(head[..tagStart], head[tagStart..], Blocks(content),
                               Trailing(content, Blocks(content)), suffix[1..]))
            else Panics
  {
    hide Find, MatchesAt, Blocks, Trailing, Occurs;
    var out := head + content + (CLOSE + suffix);
    var close := |head + content|;
    assert |out| == close + |CLOSE| + |suffix|;
    assert suffix != "" ==> out[close + 9] == suffix[0];
    assert out[|head|..close] == content;
    assert out[..tagStart] == head[..tagStart];
    assert out[tagStart..|head|] == head[tagStart..];
    assert suffix != "" ==> out[close + 10..] == suffix[1..];
  }

  /**
   * Printing scanned blocks into a parsed document and parsing the result gives back the head and exactly
   * these blocks. The trailing text comes back too, trimmed if no block precedes it. The suffix comes back
   * without its first character; a suffix that has no character to lose makes the parse panic.
   */
  lemma ReparsePrinted(xml: string, merged: seq<Block>)
    requires ParseBody(xml).Parsed? && AllScanned(merged)
    ensures var b := ParseBody(xml).body;
      ParseBody(Rebuilt(b, merged)) ==
      if SuffixSurvives(b.suffix) then
        Parsed(BodyParse(b.prefix, b.bodyOpenTag, merged, TrailingAfter(b.trailing, merged), b.suffix[1..]))
      else Panics
  {
    hide ParseBody, Find, MatchesAt, Blocks, Trailing, MakeBlock, Occurs, RawBlocks, TrimEnd, Trim,
      SuffixSurvives, BlockEnd;
    var b := ParseBody(xml).body;
    var tagStart, gt, close := ParsedText(xml);
    var head, raws := xml[..gt + 1], RawXml(merged);
    var content := Concat(raws) + b.trailing;
    TrailingIsClean(xml[gt + 1..close]);
    PrintedHasNoClose(raws, b.trailing);
    HeadFoundAgain(xml, content + (CLOSE + b.suffix), tagStart, gt, close);
    NoCloseAcross(head, content);
    assert forall k :: 0 < k < |CLOSE| ==> CLOSE[k] != CLOSE[0];
    FoundBehind(head + content, CLOSE, b.suffix);
    assert head + (content + (CLOSE + b.suffix)) == head + content + (CLOSE + b.suffix);
    ParseKnown(head, content, b.suffix, tagStart);
    RebuiltText(b, merged, head, content);
    ScanPrinted(raws, b.trailing);
    BlocksAre(content);
    assert MakeBlocks(raws) == merged;
    TrailingStable(xml[gt + 1..close]);
    assert head[..tagStart] == b.prefix && head[tagStart..] == b.bodyOpenTag;
  }

  lemma RebuiltText(b: BodyParse, merged: seq<Block>, head: string, content: string)
    requires head == b.prefix + b.bodyOpenTag && content == Concat(RawXml(merged)) + b.trailing
    ensures Rebuilt(b, merged) == head + content + (CLOSE + b.suffix)
  {
  }

  /** Trailing text is never blank: either it was kept for its content, or it is empty. */
  lemma TrailingStable(s: string)
    ensures var t := Trailing(s, Blocks(s)); Trim(t) == "" ==> t == ""
  {
    hide LastEnd, RawBlocks, Blocks, Trailing;
    TrailingOf(s);
    TrimEmpty(Trailing(s, Blocks(s)));
    TrimEndFixed(TrimEnd(s));
  }

  /** The whole driver on the document parts: parse three texts, merge, print into the base. */
  ghost function MergeDocuments(base: string, ours: string, theirs: string): Option<string>
    requires ParseBody(base).Parsed? && ParseBody(ours).Parsed? && ParseBody(theirs).Parsed?
  {
    var b := ParseBody(base).body;
    match Merged(b.blocks, ParseBody(ours).body.blocks, ParseBody(theirs).body.blocks)
    case None => None
    case Some(m) => Some(Rebuilt(b, m))
  }

  /** A printed merge parses to the merged blocks, in the base's head, and to the base's trailing text. */
  lemma MergeReparses(base: string, ours: string, theirs: string)
    requires ParseBody(base).Parsed? && ParseBody(ours).Parsed? && ParseBody(theirs).Parsed?
    requires MergeDocuments(base, ours, theirs).Some?
    ensures var b, out := ParseBody(base).body, ParseBody(MergeDocuments(base, ours, theirs).value);
      var m := Merged(b.blocks, ParseBody(ours).body.blocks, ParseBody(theirs).body.blocks).value;
      && (out.Parsed? <==> SuffixSurvives(b.suffix))
      && (!out.Parsed? ==> out == Panics)
      && (out.Parsed? ==>
            && out.body.blocks == m
            && out.body.prefix == b.prefix && out.body.bodyOpenTag == b.bodyOpenTag
            && (out.body.trailing == b.trailing <==> m != [] || TrimEnd(b.trailing) == b.trailing)
            && out.body.suffix == b.suffix[1..])
  {
    hide ParseBody, Merged, Rebuilt, Scanned, SuffixSurvives;
    var b := ParseBody(base).body;
    ParsedAreScanned(ours);
    ParsedAreScanned(theirs);
    MergeIsScanned(b.blocks, ParseBody(ours).body.blocks, ParseBody(theirs).body.blocks);
    ReparsePrinted(base, Merged(b.blocks, ParseBody(ours).body.blocks, ParseBody(theirs).body.blocks).value);
  }

  // ---- printing never gives back the text that was parsed ----

  lemma {:induction false} PrintedIsShorter(s: string, pos: nat)
    requires pos <= |s| && RawBlocks(s, pos) != []
    ensures |Concat(RawBlocks(s, pos))| + (|s| - LastEnd(s, pos)) <= |s| - pos
    decreases |s| - pos
  {
    hide BlockEnd;
    match BlockEnd(s, pos) {
      case Some(e) =>
        if RawBlocks(s, e) != [] {
          PrintedIsShorter(s, e);
        }
      case None =>
        PrintedIsShorter(s, pos + 1);
    }
  }

  /**
   * The closing tag is cut one character too far, so no document is ever printed back as it was: even the
   * unmerged blocks of the document itself give a shorter text.
   */
  lemma PrintingLosesText(xml: string)
    requires ParseBody(xml).Parsed?
    ensures var b := ParseBody(xml).body; |Rebuilt(b, b.blocks)| < |xml|
  {
    hide ParseBody, Find, MatchesAt, Trailing, MakeBlocks, Occurs, RawBlocks, LastEnd, Concat, TrimEnd, Trim;
    var b := ParseBody(xml).body;
    var tagStart, gt, close := ParsedText(xml);
    var content := xml[gt + 1..close];
    var raws := RawBlocks(content, 0);
    RawOfBlocks(raws);
    TrailingOf(content);
    ConcatOfNone();
    if raws != [] {
      PrintedIsShorter(content, 0);
    }
    assert |b.prefix| + |b.bodyOpenTag| == gt + 1;
    assert |Concat(raws)| + |b.trailing| <= |content|;
  }

  lemma ConcatOfNone()
    ensures Concat([]) == ""
  {
  }

  /** A document with a single character behind its closing body tag: it parses, its print does not. */
  lemma SuffixRunsOut()
    ensures var xml := "<w:body></w:body>\n";
      ParseBody(xml).Parsed? && ParseBody(Rebuilt(ParseBody(xml).body, ParseBody(xml).body.blocks)) == Panics
  {
    hide Find, MatchesAt, Blocks, Rebuilt;
    var head, xml := "<w:body>", "<w:body></w:body>\n";
    assert xml == head + "" + (CLOSE + "\n") == head + (CLOSE + "\n");
    assert xml == "" + (OPEN + "></w:body>\n");
    assert xml == OPEN + (">" + "</w:body>\n");
    NothingInEmpty(OPEN);
    FoundBehind("", OPEN, "></w:body>\n");
    NoBracketInOpen();
    FoundBehind(OPEN, ">", "</w:body>\n");
    forall j: nat
      ensures !MatchesAt(head, CLOSE, j)
    {
      TooShort(head, CLOSE, j);
    }
    FoundBehind(head, CLOSE, "\n");
    ParseKnown(head, "", "\n", 0);
    ParsedAreScanned(xml);
    ReparsePrinted(xml, ParseBody(xml).body.blocks);
  }

  lemma NothingInEmpty(pat: string)
    requires pat != ""
    ensures !Occurs("", pat)
  {
  }

  lemma NoBracketInOpen()
    ensures !Occurs(OPEN, ">")
  {
    forall j: nat
      ensures !MatchesAt(OPEN, ">", j)
    {
      assert ">"[0] == '>';
    }
  }

  // ---- the text that blocks are compared by ----

  lemma NextTextMoves(s: string, pos: nat)
    ensures match NextText(s, pos)
            case NoText => true
            case EmptyElement(next) => pos < next && pos < |s|
            case Content(start, end) => pos <= start <= end <= |s| && pos < |s|
  {
    hide Find, MatchesAt;
  }

  lemma TextFromContent(s: string, pos: nat, start: nat, end: nat)
    requires NextText(s, pos) == Content(start, end)
    ensures start <= end <= |s| && pos < end + 6 && pos < |s|
    ensures TextFrom(s, pos) == s[start..end] + TextFrom(s, end + 6)
  {
    hide NextText;
    NextTextMoves(s, pos);
  }

  lemma ContentInRight(a: string, b: string, pos: nat, start: nat, end: nat)
    requires NextText(b, pos) == Content(start, end)
    requires NextText(a + b, |a| + pos) == Content(|a| + start, |a| + end)
    requires TextFrom(a + b, |a| + (end + 6)) == TextFrom(b, end + 6)
    ensures pos < end + 6 && pos < |b|
    ensures TextFrom(a + b, |a| + pos) == TextFrom(b, pos)
  {
    hide NextText, TextFrom;
    TextFromContent(b, pos, start, end);
    TextFromContent(a + b, |a| + pos, |a| + start, |a| + end);
    assert |a| + (end + 6) == |a| + end + 6;
    assert (a + b)[|a| + start..|a| + end] == b[start..end];
  }

  lemma {:induction false} TextInRight(a: string, b: string, pos: nat)
    ensures TextFrom(a + b, |a| + pos) == TextFrom(b, pos)
    decreases |b| - pos
  {
    hide NextText;
    NextTextInRight(a, b, pos);
    NextTextMoves(b, pos);
    match NextText(b, pos) {
      case NoText =>
      case EmptyElement(next) =>
        TextInRight(a, b, next);
      case Content(start, end) =>
        TextInRight(a, b, end + 6);
        ContentInRight(a, b, pos, start, end);
    }
  }

  lemma NextTextInRight(a: string, b: string, pos: nat)
    ensures NextText(a + b, |a| + pos) ==
            match NextText(b, pos)
            case NoText => NoText
            case EmptyElement(next) => EmptyElement(|a| + next)
            case Content(start, end) => Content(|a| + start, |a| + end)
  {
    hide Find, MatchesAt;
    FindInRight(a, b, "<w:t", pos);
    var t := Find(b, "<w:t", pos);
    if t.Some? {
      FindInRight(a, b, ">", t.value + 4);
      var gt := Find(b, ">", t.value + 4);
      if gt.Some? {
        FindInRight(a, b, "</w:t>", gt.value + 1);
      }
    }
  }

  /** A run of plain text as the driver's documents write it. */
  function Run(text: string): string {
    "<w:r><w:t>" + text + "</w:t></w:r>"
  }

  function Runs(texts: seq<string>): string {
    if texts == [] then "" else Run(texts[0]) + Runs(texts[1..])
  }

  lemma TextOfRun(text: string, rest: string)
    requires '<' !in text
    ensures NextText(Run(text) + rest, 0) == Content(10, 10 + |text|)
  {
    var s := Run(text) + rest;
    assert MatchesAt(s, "<w:t", 5);
    assert forall j :: 0 <= j < 5 ==> !MatchesAt(s, "<w:t", j) by {
      forall j: nat | j < 5
        ensures !MatchesAt(s, "<w:t", j)
      {
        assert s[j] != "<w:t"[0] || s[j + 3] != "<w:t"[3];
      }
    }
    assert MatchesAt(s, ">", 9);
    assert s[10..10 + |text|] == text;
    assert MatchesAt(s, "</w:t>", 10 + |text|);
    forall j: nat | 10 <= j < 10 + |text|
      ensures !MatchesAt(s, "</w:t>", j)
    {
      assert s[j] == text[j - 10] != "</w:t>"[0];
    }
  }

  /** The text of consecutive runs is their texts in order. */
  lemma {:induction false} TextOfRuns(texts: seq<string>)
    requires forall i :: 0 <= i < |texts| ==> '<' !in texts[i]
    ensures TextFrom(Runs(texts), 0) == Concat(texts)
  {
    hide NextText, Find;
    if texts == [] {
      NoTextInEmpty();
    } else {
      var t, rest := texts[0], Runs(texts[1..]);
      TextOfRun(t, rest);
      var s := Run(t) + rest;
      assert s[10..10 + |t|] == t;
      var head := "<w:r><w:t>" + t + "</w:t>";
      assert s == head + ("</w:r>" + rest);
      TextInRight(head, "</w:r>" + rest, 0);
      SkipRunEnd(rest);
      TextOfRuns(texts[1..]);
    }
  }

  lemma NoTextInEmpty()
    ensures TextFrom("", 0) == ""
  {
  }

  lemma SkipRunEnd(rest: string)
    ensures TextFrom("</w:r>" + rest, 0) == TextFrom(rest, 0)
  {
    hide Find, NextText;
    var s := "</w:r>" + rest;
    forall j: nat | j < 6
      ensures !MatchesAt(s, "<w:t", j)
    {
      assert s[j] != "<w:t"[0] || s[j + 1] != "<w:t"[1];
    }
    TextFromLater(s, 0, 6);
    TextInRight("</w:r>", rest, 0);
  }

  lemma TextFromLater(s: string, a: nat, b: nat)
    requires a <= b && forall j :: a <= j < b ==> !MatchesAt(s, "<w:t", j)
    ensures TextFrom(s, a) == TextFrom(s, b)
  {
    hide Find, MatchesAt;
    FindFromLater(s, "<w:t", a, b);
    assert NextText(s, a) == NextText(s, b);
    hide NextText;
  }

  lemma FindFromLater(s: string, pat: string, a: nat, b: nat)
    requires a <= b && forall j :: a <= j < b ==> !MatchesAt(s, pat, j)
    ensures Find(s, pat, a) == Find(s, pat, b)
  {
    hide MatchesAt;
  }

  // ---- a change of formatting ----

  const BOLD: string := "<w:rPr><w:b/></w:rPr>"

  function PlainParagraph(text: string): string {
    "<w:p><w:r>" + "<w:t>" + text + "</w:t></w:r></w:p>"
  }

  function BoldParagraph(text: string): string {
    "<w:p><w:r>" + BOLD + "<w:t>" + text + "</w:t></w:r></w:p>"
  }

  lemma TextBehind(head: string, rest: string)
    requires forall j: nat | j < |head| :: !MatchesAt(head + rest, "<w:t", j)
    ensures TextFrom(head + rest, 0) == TextFrom(rest, 0)
  {
    hide Find, NextText, MatchesAt;
    TextFromLater(head + rest, 0, |head|);
    TextInRight(head, rest, 0);
  }

  lemma NoTextTag(head: string, rest: string)
    requires forall j: nat | j < |head| && head[j] == '<' :: j + 3 < |head| && head[j + 3] != 't'
    ensures forall j: nat | j < |head| :: !MatchesAt(head + rest, "<w:t", j)
  {
    hide MatchesAt;
    forall j: nat | j < |head|
      ensures !MatchesAt(head + rest, "<w:t", j)
    {
      if MatchesAt(head + rest, "<w:t", j) {
        MatchedChar(head + rest, "<w:t", j, 0);
        MatchedChar(head + rest, "<w:t", j, 3);
      }
    }
  }

  lemma BoldKeepsText(text: string)
    ensures TextFrom(BoldParagraph(text), 0) == TextFrom(PlainParagraph(text), 0)
  {
    hide TextFrom;
    var rest := "<w:t>" + text + "</w:t></w:r></w:p>";
    var plain, bold := "<w:p><w:r>", "<w:p><w:r>" + BOLD;
    NoTextTag(plain, rest);
    NoTextTag(bold, rest);
    TextBehind(plain, rest);
    TextBehind(bold, rest);
    assert plain + rest == PlainParagraph(text);
    assert bold + rest == BoldParagraph(text);
  }

  /** No revision marker starts where the paragraph has its tags. */
  lemma PlainIsClean(text: string)
    requires '<' !in text
    ensures DetectTrackChanges(PlainParagraph(text)) == Clean
  {
    hide Find;
    var s := PlainParagraph(text);
    assert forall k :: 15 <= k < 15 + |text| ==> s[k] == text[k - 15];
    forall j: nat | j + 5 <= |s| && s[j] == '<' && s[j + 1] == 'w'
      ensures s[j + 3] in "pt" || (s[j + 3] == 'r' && s[j + 4] == '>')
    {
    }
    forall marker, j: nat | marker in TRACK_MARKERS
      ensures !MatchesAt(s, marker, j)
    {
      MarkerShape(marker);
      if MatchesAt(s, marker, j) {
        MatchedChar(s, marker, j, 0);
        MatchedChar(s, marker, j, 1);
        MatchedChar(s, marker, j, 3);
        MatchedChar(s, marker, j, 4);
      }
    }
  }

  lemma MarkerShape(marker: string)
    requires marker in TRACK_MARKERS
    ensures |marker| >= 5 && marker[0] == '<' && marker[1] == 'w' && marker[3] !in "pt"
    ensures marker[3] == 'r' ==> marker[4] == 'P'
  {
  }

  /** Their only change is that a paragraph is bold now; we changed nothing; the merge gives our paragraph. */
  lemma BoldIsDropped(text: string)
    requires '<' !in text
    ensures var plain := Block(Paragraph, PlainParagraph(text), TextFrom(PlainParagraph(text), 0), Clean);
      var bold := Block(Paragraph, BoldParagraph(text), TextFrom(BoldParagraph(text), 0), Clean);
      plain != bold && Merged([plain], [plain], [bold]) == Some([plain])
  {
    hide TextFrom, DetectTrackChanges, Merged;
    var plain := Block(Paragraph, PlainParagraph(text), TextFrom(PlainParagraph(text), 0), Clean);
    var bold := Block(Paragraph, BoldParagraph(text), TextFrom(BoldParagraph(text), 0), Clean);
    BoldKeepsText(text);
    PlainIsClean(text);
    FormattingIsDropped([plain], 0, bold);
    assert [plain][0 := bold] == [bold];
    assert |plain.rawXml| < |bold.rawXml|;
  }
}
