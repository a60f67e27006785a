/** The text of markup: what is read of text elements with attributes, of empty ones, and of what stands between. */
module DocxText {
  import opened Wrappers
  import opened Text
  import opened DocxScanner
  import opened DocxRoundTrip

  /**
   * A piece of markup. A tag that begins with `<w:t` is taken for a text element, whatever its name goes on with, and
   * so `<w:tab/>` is an empty one.
   */
  datatype Piece = Words(attributes: string, text: string) | Empty(attributes: string) | Other(xml: string)

  ghost predicate IsPiece(p: Piece) {
    match p
    case Words(attributes, text) =>
      '>' !in attributes && (attributes != "" ==> attributes[|attributes| - 1] != '/') && '<' !in text
    case Empty(attributes) => '>' !in attributes
    case Other(xml) => xml != "" && xml[|xml| - 1] == '>' && !Occurs(xml, "<w:t")
  }

  function Markup(p: Piece): string {
    match p
    case Words(attributes, text) => "<w:t" + attributes + ">" + text + "</w:t>"
    case Empty(attributes) => "<w:t" + attributes + "/>"
    case Other(xml) => xml
  }

  function TextOf(p: Piece): string {
    if p.Words? then p.text else ""
  }

  function AllMarkup(ps: seq<Piece>): string {
    if ps == [] then "" else Markup(ps[0]) + AllMarkup(ps[1..])
  }

  function AllText(ps: seq<Piece>): string {
    if ps == [] then "" else TextOf(ps[0]) + AllText(ps[1..])
  }

  lemma CloseOfTag(s: string, from: nat, at: nat)
    requires from <= at < |s| && s[at] == '>' && '>' !in s[from..at]
    ensures Find(s, ">", from) == Some(at)
  {
    forall j: nat | from <= j < at
      ensures !MatchesAt(s, ">", j)
    {
      assert s[from..at][j - from] == s[j] && s[j] in s[from..at];
      assert ">"[0] == '>';
    }
    FindsAt(s, ">", from, at);
  }

  lemma CloseOfText(s: string, from: nat, at: nat)
    requires from <= at <= |s| && MatchesAt(s, TEXT_END, at) && '<' !in s[from..at]
    ensures Find(s, TEXT_END, from) == Some(at)
  {
    forall j: nat | from <= j < at
      ensures !MatchesAt(s, TEXT_END, j)
    {
      assert s[from..at][j - from] == s[j] && s[j] in s[from..at];
      assert TEXT_END[0] == '<';
    }
    FindsAt(s, TEXT_END, from, at);
  }

  lemma Middle(a: string, b: string, c: string)
    ensures (a + b + c)[|a|..|a| + |b|] == b && |a + b + c| == |a| + |b| + |c|
  {
  }

  /** The tag of such an element, and what stands behind it. */
  lemma WordsTag(attributes: string, behind: string)
    requires '>' !in attributes && (attributes != "" ==> attributes[|attributes| - 1] != '/')
    ensures var s, gt := "<w:t" + attributes + (">" + behind), 4 + |attributes|;
      && Find(s, "<w:t", 0) == Some(0) && Find(s, ">", 4) == Some(gt) && !(gt > 4 && s[gt - 1] == '/')
  {
    var s, gt := "<w:t" + attributes + (">" + behind), 4 + |attributes|;
    assert MatchesAt(s, "<w:t", 0);
    FindsAt(s, "<w:t", 0, 0);
    Middle("<w:t", attributes, ">" + behind);
    CloseOfTag(s, 4, gt);
    hide Find, MatchesAt;
    assert |attributes| > 0 ==> s[gt - 1] == attributes[|attributes| - 1];
  }

  const TEXT_END: string := "</w:t>"

  lemma MatchesBehind(a: string, tail: string, s: string, n: nat)
    requires MatchesAt(tail, TEXT_END, 0) && s == a + tail && n == |a|
    ensures MatchesAt(s, TEXT_END, n)
  {
    MatchInRight(a, tail, TEXT_END, 0);
  }

  lemma WordsEnd(head: string, text: string, tail: string, s: string, n: nat)
    requires '<' !in text && MatchesAt(tail, TEXT_END, 0) && s == head + text + tail && n == |head| + |text|
    ensures n <= |s| && s[|head|..n] == text && Find(s, TEXT_END, |head|) == Some(n)
  {
    Middle(head, text, tail);
    MatchesBehind(head + text, tail, s, n);
    hide *;
    CloseOfText(s, |head|, n);
  }

  lemma EndMatches(rest: string)
    ensures MatchesAt("</w:t>" + rest, TEXT_END, 0)
  {
  }

  lemma WordsSplit(attributes: string, text: string, rest: string)
    ensures var s, head := Markup(Words(attributes, text)) + rest, "<w:t" + attributes + ">";
      && s == "<w:t" + attributes + (">" + (text + "</w:t>" + rest)) && s == head + text + ("</w:t>" + rest)
      && |head| == 5 + |attributes| && |Markup(Words(attributes, text))| == |head| + |text| + 6
  {
  }

  lemma NextTextIs(s: string, gt: nat, close: nat)
    requires Find(s, "<w:t", 0) == Some(0) && Find(s, ">", 4) == Some(gt) && !(gt > 4 && s[gt - 1] == '/')
    requires Find(s, "</w:t>", gt + 1) == Some(close)
    ensures NextText(s, 0) == Content(gt + 1, close)
  {
    hide Find;
  }

  lemma WordsAhead(attributes: string, text: string, rest: string)
    requires IsPiece(Words(attributes, text))
    ensures var s := Markup(Words(attributes, text)) + rest;
      && NextText(s, 0) == Content(5 + |attributes|, 5 + |attributes| + |text|)
      && 5 + |attributes| + |text| <= |s| && s[5 + |attributes|..5 + |attributes| + |text|] == text
  {
    hide Find, NextText, Markup;
    WordsSplit(attributes, text, rest);
    WordsTag(attributes, text + "</w:t>" + rest);
    EndMatches(rest);
    WordsEnd("<w:t" + attributes + ">", text, "</w:t>" + rest,
             Markup(Words(attributes, text)) + rest, 5 + |attributes| + |text|);
    NextTextIs(Markup(Words(attributes, text)) + rest, 4 + |attributes|, 5 + |attributes| + |text|);
  }

  lemma EmptyAhead(attributes: string, rest: string)
    requires IsPiece(Empty(attributes))
    ensures NextText(Markup(Empty(attributes)) + rest, 0) == EmptyElement(|Markup(Empty(attributes))|)
  {
    var s := Markup(Empty(attributes)) + rest;
    var gt := 5 + |attributes|;
    assert MatchesAt(s, "<w:t", 0);
    FindsAt(s, "<w:t", 0, 0);
    assert s[4..gt] == attributes + "/" && s[gt] == '>' && s[gt - 1] == '/';
    CloseOfTag(s, 4, gt);
    hide Find, MatchesAt;
  }

  lemma OtherHasNoText(xml: string, rest: string)
    requires IsPiece(Other(xml))
    ensures TextFrom(xml + rest, 0) == TextFrom(rest, 0)
  {
    var s := xml + rest;
    forall j: nat | j < |xml|
      ensures !MatchesAt(s, "<w:t", j)
    {
      NoMatchAcross(xml, rest, j);
    }
    hide MatchesAt;
    TextBehind(xml, rest);
  }

  /** No tag starts in front of the `>` that ends a piece and goes on behind it. */
  lemma NoMatchAcross(xml: string, rest: string, j: nat)
    requires IsPiece(Other(xml)) && j < |xml|
    ensures !MatchesAt(xml + rest, "<w:t", j)
  {
    assert forall k :: 0 <= k < 4 ==> "<w:t"[k] != '>';
    if j + 4 <= |xml| {
      MatchInLeft(xml, rest, "<w:t", j);
    } else if MatchesAt(xml + rest, "<w:t", j) {
      MatchedChar(xml + rest, "<w:t", j, |xml| - 1 - j);
    }
  }

  lemma ContentStep(s: string, start: nat, end: nat)
    requires NextText(s, 0) == Content(start, end)
    ensures start <= end && end + 6 <= |s| && TextFrom(s, 0) == s[start..end] + TextFrom(s, end + 6)
  {
    hide NextText;
  }

  lemma EmptyStep(s: string, next: nat)
    requires NextText(s, 0) == EmptyElement(next)
    ensures TextFrom(s, 0) == TextFrom(s, next)
  {
    hide NextText;
  }

  lemma WordsText(attributes: string, text: string, rest: string)
    requires IsPiece(Words(attributes, text))
    ensures TextFrom(Markup(Words(attributes, text)) + rest, 0) == text + TextFrom(rest, 0)
  {
    hide *;
    var m := Markup(Words(attributes, text));
    WordsSplit(attributes, text, rest);
    WordsAhead(attributes, text, rest);
    ContentStep(m + rest, 5 + |attributes|, 5 + |attributes| + |text|);
    TextInRight(m, rest, 0);
  }

  lemma EmptyText(attributes: string, rest: string)
    requires IsPiece(Empty(attributes))
    ensures TextFrom(Markup(Empty(attributes)) + rest, 0) == TextFrom(rest, 0)
  {
    hide *;
    var m := Markup(Empty(attributes));
    EmptyAhead(attributes, rest);
    EmptyStep(m + rest, |m|);
    TextInRight(m, rest, 0);
  }

  lemma PieceText(p: Piece, rest: string)
    requires IsPiece(p)
    ensures TextFrom(Markup(p) + rest, 0) == TextOf(p) + TextFrom(rest, 0)
  {
    hide TextFrom;
    match p {
      case Words(attributes, text) => WordsText(attributes, text, rest);
      case Empty(attributes) => EmptyText(attributes, rest);
      case Other(xml) => OtherHasNoText(xml, rest);
    }
  }

  /** The text of markup is the text of its text elements, with attributes or without, in order. */
  lemma {:induction false} TextOfPieces(ps: seq<Piece>)
    requires forall i :: 0 <= i < |ps| ==> IsPiece(ps[i])
    ensures TextFrom(AllMarkup(ps), 0) == AllText(ps)
  {
    hide IsPiece, Markup, TextOf, TextFrom;
    if ps == [] {
      NoTextInEmpty();
    } else {
      PieceText(ps[0], AllMarkup(ps[1..]));
      TextOfPieces(ps[1..]);
    }
  }
}
