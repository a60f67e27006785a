/** Parsing and printing of `word/document.xml`. */
module DocxBody {
  import opened Wrappers
  import opened Text
  import opened DocxScanner
  import opened DocxBlocks

  const OPEN: string := "<w:body"
  const CLOSE: string := "</w:body>"

  datatype BodyParse = BodyParse(
    prefix: string, bodyOpenTag: string, blocks: seq<Block>, trailing: string, suffix: string)

  datatype ParseFailure = NoBody | MalformedTag | NoClose

  /** Slicing a Rust string out of bounds or inside a character panics, which is an outcome of its own. */
  datatype ParseOutcome = Parsed(body: BodyParse) | ParseError(reason: ParseFailure) | Panics

  predicate IsAscii(c: char) { c as int < 0x80 }

  /** The suffix is cut ten bytes behind the start of the nine-byte closing tag. */
  predicate SuffixCutInBounds(xml: string, close: nat) {
    close + 10 <= |xml| && IsAscii(xml[close + 9])
  }

  function ParseBody(xml: string): ParseOutcome {
    match Find(xml, OPEN, 0)
    case None => ParseError(NoBody)
    case Some(tagStart) =>
      match Find(xml, ">", tagStart)
      case None => ParseError(MalformedTag)
      case Some(gt) =>
        match Find(xml, CLOSE, 0)
        case None => ParseError(NoClose)
        case Some(close) =>
          if !SuffixCutInBounds(xml, close) || close < gt + 1 then Panics
          else
            var content := xml[gt + 1..close];
            var blocks := Blocks(content);
            Parsed(BodyParse(xml[..tagStart], xml[tagStart..gt + 1], blocks,
                             Trailing(content, blocks), xml[close + 10..]))
  }

  function Trailing(content: string, blocks: seq<Block>): string {
    if blocks == [] then TrimEnd(content)
    else
      var raw := blocks[|blocks| - 1].rawXml;
      match RFind(content, raw, |content|)
      case Some(at) =>
        var after := content[at + |raw|..];
        if Trim(after) != "" then after else ""
      case None => ""
  }

  function RawXml(bs: seq<Block>): (raws: seq<string>)
    ensures |raws| == |bs|
  {
    seq(|bs|, i requires 0 <= i < |bs| => bs[i].rawXml)
  }

  function Rebuilt(body: BodyParse, merged: seq<Block>): string {
    body.prefix + body.bodyOpenTag + Concat(RawXml(merged)) + body.trailing + CLOSE + body.suffix
  }

  lemma {:induction false} ConcatAppend(raws: seq<string>, raw: string)
    ensures Concat(raws + [raw]) == Concat(raws) + raw
  {
    if raws == [] {
      assert [raw][1..] == [];
    } else {
      assert (raws + [raw])[1..] == raws[1..] + [raw];
      ConcatAppend(raws[1..], raw);
    }
  }

  method RebuildDocumentXml(body: BodyParse, merged: seq<Block>) returns (out: string)
    ensures out == Rebuilt(body, merged)
  {
    out := body.prefix;
    out := out + body.bodyOpenTag;
    for i := 0 to |merged|
      invariant out == body.prefix + body.bodyOpenTag + Concat(RawXml(merged[..i]))
    {
      assert RawXml(merged[..i + 1]) == RawXml(merged[..i]) + [merged[i].rawXml];
      ConcatAppend(RawXml(merged[..i]), merged[i].rawXml);
      out := out + merged[i].rawXml;
    }
    assert merged[..|merged|] == merged;
    out := out + body.trailing;
    out := out + CLOSE;
    out := out + body.suffix;
  }

  // ---- what a parse tells about the text ----

  ghost predicate ParsedAt(xml: string, tagStart: nat, gt: nat, close: nat) {
    && Find(xml, OPEN, 0) == Some(tagStart)
    && Find(xml, ">", tagStart) == Some(gt)
    && Find(xml, CLOSE, 0) == Some(close)
    && gt < close && SuffixCutInBounds(xml, close)
  }

  /** The text between the body tags, and the tags' places, of a text that parses. */
  lemma ParsedText(xml: string) returns (tagStart: nat, gt: nat, close: nat)
    requires ParseBody(xml).Parsed?
    ensures ParsedAt(xml, tagStart, gt, close)
    ensures var b, content := ParseBody(xml).body, xml[gt + 1..close];
      && b == BodyParse(xml[..tagStart], xml[tagStart..gt + 1], Blocks(content),
                        Trailing(content, Blocks(content)), xml[close + 10..])
      && !Occurs(content, CLOSE)
  {
    hide Find, MatchesAt, Blocks, Trailing;
    tagStart := Find(xml, OPEN, 0).value;
    gt := Find(xml, ">", tagStart).value;
    close := Find(xml, CLOSE, 0).value;
    var content := xml[gt + 1..close];
    forall j: nat
      ensures !MatchesAt(content, CLOSE, j)
    {
      if j + |CLOSE| <= |content| {
        assert xml == xml[..gt + 1] + (content + xml[close..]);
        MatchInRight(xml[..gt + 1], content + xml[close..], CLOSE, j);
        MatchInLeft(content, xml[close..], CLOSE, j);
      } else {
        TooShort(content, CLOSE, j);
      }
    }
  }

  lemma TooShort(s: string, pat: string, j: nat)
    requires j + |pat| > |s|
    ensures !MatchesAt(s, pat, j)
  {
  }

  // ---- no closing body tag can appear inside what is printed ----

  predicate EndsTag(s: string) {
    s == "" || s[|s| - 1] == '>'
  }

  /** The closing body tag has no '>' before its end, so it cannot straddle the end of a tag. */
  lemma NoCloseAcross(a: string, b: string)
    requires !Occurs(a, CLOSE) && !Occurs(b, CLOSE) && EndsTag(a)
    ensures !Occurs(a + b, CLOSE)
  {
    hide MatchesAt;
    assert forall k :: 0 <= k < |CLOSE| - 1 ==> CLOSE[k] != '>';
    assert a != "" ==> (a + b)[|a| - 1] == '>';
    forall j: nat
      ensures !MatchesAt(a + b, CLOSE, j)
    {
      if j >= |a| {
        MatchInRight(a, b, CLOSE, j - |a|);
      } else if j + |CLOSE| <= |a| {
        MatchInLeft(a, b, CLOSE, j);
      } else if MatchesAt(a + b, CLOSE, j) {
        MatchedChar(a + b, CLOSE, j, |a| - 1 - j);
      }
    }
  }

  /** A complete block that holds no closing body tag. */
  ghost predicate CleanBlock(raw: string) {
    IsBlockXml(raw) && !Occurs(raw, CLOSE)
  }

  ghost predicate AllClean(raws: seq<string>) {
    forall i :: 0 <= i < |raws| ==> CleanBlock(raws[i])
  }

  lemma BlockEndsTag(raw: string)
    requires IsBlockXml(raw)
    ensures EndsTag(raw)
  {
    ClosingOnlyAtEnd(raw, 0);
    var closing := ClosingFor(raw, 0).value.0;
    MatchedChar(raw, closing, |raw| - |closing|, |closing| - 1);
  }

  lemma SliceHasNoClose(s: string, i: nat, e: nat)
    requires i <= e <= |s| && !Occurs(s, CLOSE)
    ensures !Occurs(s[i..e], CLOSE)
  {
    hide MatchesAt;
    assert s == s[..i] + (s[i..e] + s[e..]);
    forall j: nat
      ensures !MatchesAt(s[i..e], CLOSE, j)
    {
      MatchInRight(s[..i], s[i..e] + s[e..], CLOSE, j);
      if j + |CLOSE| <= e - i {
        MatchInLeft(s[i..e], s[e..], CLOSE, j);
      } else {
        TooShort(s[i..e], CLOSE, j);
      }
    }
  }

  lemma {:induction false} RawBlocksClean(s: string, pos: nat)
    requires !Occurs(s, CLOSE)
    ensures AllClean(RawBlocks(s, pos))
    decreases |s| - pos
  {
    hide BlockEnd, Occurs;
    if pos < |s| {
      match BlockEnd(s, pos) {
        case Some(e) =>
          BlockEndOfSlice(s, pos);
          SliceHasNoClose(s, pos, e);
          RawBlocksClean(s, e);
        case None =>
          RawBlocksClean(s, pos + 1);
      }
    }
  }

  lemma {:induction false} PrintedHasNoClose(raws: seq<string>, rest: string)
    requires AllClean(raws) && !Occurs(rest, CLOSE)
    ensures !Occurs(Concat(raws) + rest, CLOSE)
  {
    hide Occurs;
    if raws == [] {
      assert Concat(raws) + rest == rest;
    } else {
      PrintedHasNoClose(raws[1..], rest);
      BlockEndsTag(raws[0]);
      NoCloseAcross(raws[0], Concat(raws[1..]) + rest);
      assert Concat(raws) + rest == raws[0] + (Concat(raws[1..]) + rest);
    }
  }

  /** A tag is first found where it was appended, if its first character starts no earlier copy. */
  lemma FoundBehind(a: string, tag: string, rest: string)
    requires tag != "" && !Occurs(a, tag) && forall k :: 0 < k < |tag| ==> tag[k] != tag[0]
    ensures Find(a + (tag + rest), tag, 0) == Some(|a|)
  {
    var s := a + (tag + rest);
    assert MatchesAt(tag + rest, tag, 0);
    hide MatchesAt, Find;
    MatchInRight(a, tag + rest, tag, 0);
    assert s[|a|] == tag[0];
    forall j: nat | j < |a|
      ensures !MatchesAt(s, tag, j)
    {
      if j + |tag| <= |a| {
        MatchInLeft(a, tag + rest, tag, j);
      } else if MatchesAt(s, tag, j) {
        MatchedChar(s, tag, j, |a| - j);
      }
    }
  }

  // ---- blocks and trailing text of a body ----

  lemma RawOfBlocks(raws: seq<string>)
    ensures RawXml(MakeBlocks(raws)) == raws
  {
  }

  lemma TrailingBehind(content: string, blocks: seq<Block>, raw: string, e: nat)
    requires blocks != [] && blocks[|blocks| - 1].rawXml == raw
    requires |raw| <= e <= |content| && RFind(content, raw, |content|) == Some(e - |raw|)
    ensures Trailing(content, blocks) == if Trim(content[e..]) == "" then "" else content[e..]
  {
    hide RFind, Trim;
    assert content[e - |raw| + |raw|..] == content[e..];
  }

  lemma LastRaw(raws: seq<string>)
    requires raws != []
    ensures MakeBlocks(raws) != [] && MakeBlocks(raws)[|raws| - 1].rawXml == raws[|raws| - 1]
  {
    hide TextFrom, DetectTrackChanges, MatchesAt;
  }

  /** The trailing text, in terms of where the forward scanner stopped. */
  lemma TrailingOf(s: string)
    ensures var raws := RawBlocks(s, 0);
      if raws == [] then Trailing(s, Blocks(s)) == TrimEnd(s)
      else
        var e := LastEnd(s, 0);
        e <= |s| && Trailing(s, Blocks(s)) == if Trim(s[e..]) == "" then "" else s[e..]
  {
    hide *;
    var raws := RawBlocks(s, 0);
    BlocksAre(s);
    if raws != [] {
      var bs, raw, e := MakeBlocks(raws), raws[|raws| - 1], LastEnd(s, 0);
      LastRaw(raws);
      assert bs[|bs| - 1].rawXml == raw;
      RFindAgreesWithScanner(s);
      TrailingBehind(s, bs, raw, e);
    }
  }

  lemma BlocksAre(s: string)
    ensures Blocks(s) == MakeBlocks(RawBlocks(s, 0))
    ensures RawBlocks(s, 0) == [] ==> Trailing(s, Blocks(s)) == TrimEnd(s)
  {
    hide RawBlocks, MakeBlocks, TrimEnd;
  }

  /** The trailing text of a body holds no block, and no closing body tag. */
  lemma TrailingIsClean(s: string)
    requires !Occurs(s, CLOSE)
    ensures RawBlocks(Trailing(s, Blocks(s)), 0) == []
    ensures !Occurs(Trailing(s, Blocks(s)), CLOSE)
  {
    hide LastEnd, RawBlocks, Occurs, Trailing, Blocks, TrimEnd, Trim;
    TrailingOf(s);
    if RawBlocks(s, 0) == [] {
      var t := TrimEnd(s);
      assert s == t + s[|t|..];
      NoBlocksInPrefix(t, s[|t|..]);
      SliceHasNoClose(s, 0, |t|);
      assert s[0..|t|] == t;
    } else {
      var e := LastEnd(s, 0);
      LastBlock(s, 0);
      assert s[..e] + s[e..] == s && |s[..e]| + 0 == e;
      BlocksInRight(s[..e], s[e..], 0);
      SliceHasNoClose(s, e, |s|);
      SliceHasNoClose(s, 0, 0);
      assert s[e..|s|] == s[e..] && s[0..0] == "";
    }
  }

  /** Scanning the printed body gives the blocks back; the trailing text too, unless no block precedes it. */
  lemma ScanPrinted(raws: seq<string>, rest: string)
    requires AllBlockXml(raws) && RawBlocks(rest, 0) == []
    ensures var s := Concat(raws) + rest;
      && RawBlocks(s, 0) == raws
      && Trailing(s, Blocks(s)) == if raws == [] then TrimEnd(rest) else if Trim(rest) == "" then "" else rest
  {
    hide LastEnd, BlockEnd, Trailing, MakeBlock;
    var s := Concat(raws) + rest;
    BlocksOfPrinted(raws, rest);
    TrailingOf(s);
    if raws == [] {
      assert s == rest;
    } else {
      PrintedEnd(raws, rest);
      assert s[|Concat(raws)|..] == rest;
    }
  }

  lemma {:induction false} PrintedEnd(raws: seq<string>, rest: string)
    requires AllBlockXml(raws) && raws != [] && RawBlocks(rest, 0) == []
    ensures LastEnd(Concat(raws) + rest, 0) == |Concat(raws)|
  {
    hide BlockEnd;
    var raw, tail := raws[0], Concat(raws[1..]) + rest;
    assert Concat(raws) + rest == raw + tail;
    BlockEndInLeft(raw, tail, 0);
    BlocksInRight(raw, tail, 0);
    BlocksOfPrinted(raws[1..], rest);
    if raws[1..] == [] {
    } else {
      PrintedEnd(raws[1..], rest);
      LastEndInRight(raw, tail, 0);
    }
  }

  lemma {:induction false} LastEndInRight(a: string, b: string, pos: nat)
    requires pos <= |b|
    ensures LastEnd(a + b, |a| + pos) == |a| + LastEnd(b, pos)
    decreases |b| - pos
  {
    hide BlockEnd, RawBlocks;
    if pos < |b| {
      BlockEndInRight(a, b, pos);
      match BlockEnd(b, pos) {
        case Some(e) =>
          BlocksInRight(a, b, e);
          LastEndInRight(a, b, e);
        case None =>
          LastEndInRight(a, b, pos + 1);
      }
    }
  }
}
