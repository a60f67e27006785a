/**
 * The block scanner of the DOCX driver.
 *
 * The source walks the body by jumping from marker to marker. `Blocks` is an independent reading of
 * what it should find: going through the text one character at a time, take the first position where a
 * complete paragraph or table starts, and continue behind it.
 */
module DocxScanner {
  import opened Wrappers
  import opened Text

  datatype TrackChangesStatus = Clean | HasTrackChanges | AcceptedTrackChanges

  datatype BlockKind = Paragraph | Table

  datatype Block = Block(kind: BlockKind, rawXml: string, text: string, trackChanges: TrackChangesStatus)

  predicate Contains(xml: string, pat: string) {
    Find(xml, pat, 0).Some?
  }

  const TRACK_MARKERS: set<string> := {
    "<w:ins ", "<w:ins>", "<w:del ", "<w:del>", "<w:rPrChange ", "<w:rPrChange>",
    "<w:moveFrom ", "<w:moveFrom>", "<w:moveTo ", "<w:moveTo>",
    "<w:commentRangeStart ", "<w:commentRangeEnd "
  }

  function DetectTrackChanges(xml: string): TrackChangesStatus {
    if exists marker | marker in TRACK_MARKERS :: Contains(xml, marker) then HasTrackChanges else Clean
  }

  function DetectTransition(baseXml: string, sideXml: string): Option<TrackChangesStatus> {
    var b, s := DetectTrackChanges(baseXml), DetectTrackChanges(sideXml);
    if b == HasTrackChanges && s == Clean then Some(AcceptedTrackChanges)
    else if s == HasTrackChanges then Some(HasTrackChanges)
    else None
  }

  /** What one round of the text loop finds: nothing more, an empty element, or content between two positions. */
  datatype TextStep = NoText | EmptyElement(next: nat) | Content(start: nat, end: nat)

  function NextText(xml: string, search: nat): (step: TextStep)
    ensures step.EmptyElement? ==> search < step.next <= |xml|
    ensures step.Content? ==> search < step.start <= step.end <= |xml| - 6
  {
    var t := Find(xml, "<w:t", search);
    if t.None? then NoText
    else
      var gt := Find(xml, ">", t.value + 4);
      if gt.None? then NoText
      else if gt.value > t.value + 4 && xml[gt.value - 1] == '/' then EmptyElement(gt.value + 1)
      else
        var close := Find(xml, "</w:t>", gt.value + 1);
        if close.None? then NoText else Content(gt.value + 1, close.value)
  }

  /** The text collected from position `search` on. */
  function TextFrom(xml: string, search: nat): string
    decreases |xml| - search
  {
    match NextText(xml, search)
    case NoText => ""
    case EmptyElement(next) => TextFrom(xml, next)
    case Content(start, end) => xml[start..end] + TextFrom(xml, end + 6)
  }

  method ExtractText(xml: string) returns (text: string)
    ensures text == TextFrom(xml, 0)
  {
    hide NextText;
    text := "";
    var search := 0;
    while search < |xml|
      invariant search <= |xml|
      invariant text + TextFrom(xml, search) == TextFrom(xml, 0)
    {
      match NextText(xml, search) {
        case NoText =>
          break;
        case EmptyElement(next) =>
          search := next;
        case Content(start, end) =>
          var piece := xml[start..end];
          ghost var rest := TextFrom(xml, end + 6);
          assert text + (piece + rest) == (text + piece) + rest;
          text := text + piece;
          search := end + 6;
      }
    }
  }

  /** The character that must follow a marker for it to be a tag of its own. */
  predicate TagContinues(s: string, i: nat) {
    i < |s| && (s[i] == '>' || s[i] == ' ' || s[i] == '/')
  }

  /**
   * The closing marker that the tag at position `i` waits for, and how far behind `i` the search for it
   * starts; `None` if no paragraph or table opens at `i`.
   */
  function ClosingFor(s: string, i: nat): (r: Option<(string, nat)>)
    ensures r.Some? ==> r.value in {("/>", 4), ("</w:p>", 0), ("</w:tbl>", 0)}
    ensures r.Some? ==> i + 4 < |s|
  {
    if MatchesAt(s, "<w:p", i) && TagContinues(s, i + 4) then
      if s[i + 4] == '/' then Some(("/>", 4)) else Some(("</w:p>", 0))
    else if MatchesAt(s, "<w:tbl", i) && TagContinues(s, i + 6) then Some(("</w:tbl>", 0))
    else None
  }

  /** Where the block that starts at position `i` ends, if a complete block starts there. */
  function BlockEnd(s: string, i: nat): (r: Option<nat>)
    ensures r.Some? ==> i + 5 < r.value <= |s|
  {
    match ClosingFor(s, i)
    case None => None
    case Some((closing, offset)) =>
      match Find(s, closing, i + offset)
      case None => None
      case Some(close) => Some(close + |closing|)
  }

  function BlockRecord(raw: string, kind: BlockKind, selfClosing: bool): Block {
    if selfClosing then Block(Paragraph, raw, "", Clean)
    else Block(kind, raw, TextFrom(raw, 0), DetectTrackChanges(raw))
  }

  /** The block record of a complete block's XML. */
  function MakeBlock(raw: string): Block {
    if MatchesAt(raw, "<w:p", 0) then BlockRecord(raw, Paragraph, |raw| > 4 && raw[4] == '/')
    else BlockRecord(raw, Table, false)
  }

  /** The XML of the blocks found from position `pos` on. */
  function RawBlocks(s: string, pos: nat): (raws: seq<string>)
    ensures pos >= |s| ==> raws == []
    decreases |s| - pos
  {
    if pos >= |s| then []
    else match BlockEnd(s, pos)
      case Some(e) => [s[pos..e]] + RawBlocks(s, e)
      case None => RawBlocks(s, pos + 1)
  }

  function MakeBlocks(raws: seq<string>): (bs: seq<Block>)
    ensures |bs| == |raws|
  {
    seq(|raws|, i requires 0 <= i < |raws| => MakeBlock(raws[i]))
  }

  /** The blocks of a body. */
  function Blocks(s: string): seq<Block> {
    MakeBlocks(RawBlocks(s, 0))
  }

  lemma {:induction false} SkipTo(s: string, a: nat, b: nat)
    requires a <= b <= |s|
    requires forall j :: a <= j < b ==> BlockEnd(s, j).None?
    ensures RawBlocks(s, a) == RawBlocks(s, b)
    decreases b - a
  {
    if a < b {
      SkipTo(s, a + 1, b);
    }
  }

  lemma BlockStartsWithBracket(s: string, i: nat)
    ensures BlockEnd(s, i).Some? ==> i < |s| && s[i] == '<'
  {
    assert "<w:p"[0] == '<' && "<w:tbl"[0] == '<';
  }

  /** Two positions that both hold a marker are a whole marker apart: '<' occurs only at its start. */
  lemma MarkersDoNotOverlap(s: string, i: nat, pat: string, j: nat)
    requires MatchesAt(s, pat, i) && i < j < i + |pat|
    requires forall k :: 0 < k < |pat| ==> pat[k] != '<'
    ensures s[j] != '<'
    ensures BlockEnd(s, j).None?
  {
    MatchedChar(s, pat, i, j - i);
    BlockStartsWithBracket(s, j);
  }

  lemma NoMarkerNoBlock(s: string, j: nat)
    requires !MatchesAt(s, "<w:p", j) && !MatchesAt(s, "<w:tbl", j)
    ensures BlockEnd(s, j).None?
  {
  }

  /** A position where no block starts is passed together with the rest of its marker. */
  lemma PassMarker(s: string, pos: nat, start: nat, pat: string)
    requires pos <= start && MatchesAt(s, pat, start) && |pat| > 0
    requires forall k :: 0 < k < |pat| ==> pat[k] != '<'
    requires forall j :: pos <= j < start ==> !MatchesAt(s, "<w:p", j) && !MatchesAt(s, "<w:tbl", j)
    requires BlockEnd(s, start).None?
    ensures RawBlocks(s, pos) == RawBlocks(s, start + |pat|)
  {
    forall j | pos <= j < start + |pat|
      ensures BlockEnd(s, j).None?
    {
      if j < start {
        NoMarkerNoBlock(s, j);
      } else if j > start {
        MarkersDoNotOverlap(s, start, pat, j);
      }
    }
    SkipTo(s, pos, start + |pat|);
  }

  lemma TakeBlock(s: string, pos: nat, start: nat)
    requires pos <= start < |s| && BlockEnd(s, start).Some?
    requires forall j :: pos <= j < start ==> !MatchesAt(s, "<w:p", j) && !MatchesAt(s, "<w:tbl", j)
    ensures var e := BlockEnd(s, start).value;
      RawBlocks(s, pos) == [s[start..e]] + RawBlocks(s, e)
  {
    forall j | pos <= j < start
      ensures BlockEnd(s, j).None?
    {
      NoMarkerNoBlock(s, j);
    }
    SkipTo(s, pos, start);
  }

  /** What one round of the scanner's loop decides. */
  datatype ScanStep = NoMarker | NotABlock(next: nat) | Found(start: nat, next: nat, kind: BlockKind, selfClosing: bool)

  /** The nearer of the next paragraph marker and the next table marker. */
  function NextMarker(body: string, pos: nat): (r: Option<(nat, BlockKind)>)
    ensures r.None? ==> forall j :: pos <= j ==> !MatchesAt(body, "<w:p", j) && !MatchesAt(body, "<w:tbl", j)
    ensures r.Some? ==> pos <= r.value.0 && MatchesAt(body, Tag(r.value.1), r.value.0)
    ensures r.Some? ==>
      forall j :: pos <= j < r.value.0 ==> !MatchesAt(body, "<w:p", j) && !MatchesAt(body, "<w:tbl", j)
  {
    match (Find(body, "<w:p", pos), Find(body, "<w:tbl", pos))
    case (None, None) => None
    case (Some(p), None) => Some((p, Paragraph))
    case (None, Some(t)) => Some((t, Table))
    case (Some(p), Some(t)) => if p <= t then Some((p, Paragraph)) else Some((t, Table))
  }

  function Tag(kind: BlockKind): string {
    match kind case Paragraph => "<w:p" case Table => "<w:tbl"
  }

  function ParagraphStep(body: string, start: nat): (step: ScanStep)
    requires MatchesAt(body, "<w:p", start)
  {
    var afterTag := start + 4;
    if !TagContinues(body, afterTag) then NotABlock(afterTag)
    else if body[afterTag] == '/' then
      match Find(body, "/>", afterTag)
      case Some(close) => Found(start, close + 2, Paragraph, true)
      case None => NotABlock(afterTag)
    else
      match Find(body, "</w:p>", start)
      case Some(close) => Found(start, close + 6, Paragraph, false)
      case None => NotABlock(afterTag)
  }

  function TableStep(body: string, start: nat): (step: ScanStep)
    requires MatchesAt(body, "<w:tbl", start)
  {
    var afterTag := start + 6;
    if !TagContinues(body, afterTag) then NotABlock(afterTag)
    else
      match Find(body, "</w:tbl>", start)
      case Some(close) => Found(start, close + 8, Table, false)
      case None => NotABlock(afterTag)
  }

  /**
   * One round of the scanner: jump to the next marker and look for the end of the block there. A marker
   * that opens no complete block is stepped over.
   */
  function NextStep(body: string, pos: nat): (step: ScanStep)
    ensures !step.NoMarker? ==> pos < step.next <= |body|
    ensures step.Found? ==> pos <= step.start < step.next
  {
    match NextMarker(body, pos)
    case None => NoMarker
    case Some((start, kind)) => if kind == Paragraph then ParagraphStep(body, start) else TableStep(body, start)
  }

  /** A marker's round finds exactly the complete block that starts there, if one does. */
  ghost predicate StepFinds(body: string, start: nat, kind: BlockKind, step: ScanStep) {
    match BlockEnd(body, start)
    case None => step == NotABlock(start + |Tag(kind)|)
    case Some(e) =>
      start + |Tag(kind)| < e && step == Found(start, e, kind, kind == Paragraph && body[start + 4] == '/')
  }

  lemma ParagraphStepFinds(body: string, start: nat)
    requires MatchesAt(body, "<w:p", start)
    ensures StepFinds(body, start, Paragraph, ParagraphStep(body, start))
  {
    assert body[start + 3] == "<w:p"[3] != "<w:tbl"[3];
  }

  lemma TableStepFinds(body: string, start: nat)
    requires MatchesAt(body, "<w:tbl", start)
    ensures StepFinds(body, start, Table, TableStep(body, start))
  {
    assert body[start + 3] == "<w:tbl"[3] != "<w:p"[3];
  }

  /** The marker-jumping round agrees with the character-wise reading of the text. */
  lemma NextStepFinds(body: string, pos: nat)
    requires pos <= |body|
    ensures match NextStep(body, pos)
      case NoMarker => RawBlocks(body, pos) == []
      case NotABlock(next) => RawBlocks(body, pos) == RawBlocks(body, next)
      case Found(start, next, kind, selfClosing) =>
        && MatchesAt(body, Tag(kind), start) && start + |Tag(kind)| < next
        && selfClosing == (kind == Paragraph && body[start + 4] == '/')
        && RawBlocks(body, pos) == [body[start..next]] + RawBlocks(body, next)
  {
    hide Find, MatchesAt;
    match NextMarker(body, pos)
    case None =>
      forall j | pos <= j < |body|
        ensures BlockEnd(body, j).None?
      {
        NoMarkerNoBlock(body, j);
      }
      SkipTo(body, pos, |body|);
    case Some((start, kind)) =>
      if kind == Paragraph {
        ParagraphStepFinds(body, start);
      } else {
        TableStepFinds(body, start);
      }
      if BlockEnd(body, start).Some? {
        TakeBlock(body, pos, start);
      } else {
        PassMarker(body, pos, start, Tag(kind));
      }
  }

  lemma MakeBlockOf(body: string, start: nat, next: nat, kind: BlockKind)
    requires start + |Tag(kind)| < next <= |body| && MatchesAt(body, Tag(kind), start)
    ensures var raw := body[start..next];
      MakeBlock(raw) == BlockRecord(raw, kind, kind == Paragraph && body[start + 4] == '/')
  {
    MatchedChar(body, Tag(kind), start, 3);
    MatchInSlice(body, Tag(kind), start, next);
    assert "<w:tbl"[3] != "<w:p"[3];
  }

  method ReadBlock(raw: string, kind: BlockKind, selfClosing: bool) returns (block: Block)
    ensures block == BlockRecord(raw, kind, selfClosing)
  {
    if selfClosing {
      return Block(Paragraph, raw, "", Clean);
    }
    var text := ExtractText(raw);
    block := Block(kind, raw, text, DetectTrackChanges(raw));
  }

  method ExtractBlocks(body: string) returns (blocks: seq<Block>)
    ensures blocks == Blocks(body)
  {
    hide NextStep, RawBlocks, MakeBlock, BlockRecord, MatchesAt;
    blocks := [];
    var pos := 0;
    ghost var done: seq<string> := [];
    while pos < |body|
      invariant pos <= |body|
      invariant blocks == MakeBlocks(done)
      invariant done + RawBlocks(body, pos) == RawBlocks(body, 0)
      decreases |body| - pos
    {
      NextStepFinds(body, pos);
      match NextStep(body, pos) {
        case NoMarker =>
          break;
        case NotABlock(next) =>
          pos := next;
        case Found(start, next, kind, selfClosing) =>
          var raw := body[start..next];
          MakeBlockOf(body, start, next, kind);
          var block := ReadBlock(raw, kind, selfClosing);
          assert done + ([raw] + RawBlocks(body, next)) == (done + [raw]) + RawBlocks(body, next);
          done := done + [raw];
          blocks := blocks + [block];
          pos := next;
      }
    }
    assert done == RawBlocks(body, 0);
  }
}
