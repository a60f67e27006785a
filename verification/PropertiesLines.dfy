/** What each kind of line of a properties file means: entries, continued values, comments, and ignored lines. */
module PropertiesLines {
  import opened Wrappers
  import opened Text
  import opened Properties

  // ---- kinds of lines ----

  predicate OneLine(l: string) {
    '\n' !in l
  }

  predicate Blank(s: string) {
    OneLine(s) && forall i :: 0 <= i < |s| ==> IsWhitespace(s[i])
  }

  /** Nothing but blanks, or `#` or `!` behind them. */
  predicate Skipped(l: string) {
    OneLine(l) && (Trim(l) == "" || Trim(l)[0] == '#' || Trim(l)[0] == '!')
  }

  /** A line with text, no comment and without `=`. */
  predicate Plain(l: string) {
    OneLine(l) && !Skipped(l) && '=' !in l
  }

  /** A plain line that ends in a backslash. */
  predicate Continues(l: string) {
    Plain(l) && Trim(l)[|Trim(l)| - 1] == '\\'
  }

  predicate AllContinue(lines: seq<string>) {
    forall i :: 0 <= i < |lines| ==> Continues(lines[i])
  }

  /** A key and a value, with the blanks before, between and behind them. */
  datatype Head = Head(indent: string, key: string, before: string, after: string, value: string, trail: string) {
    function Text(): string {
      indent + key + before + "=" + after + value + trail
    }
  }

  predicate IsHead(h: Head) {
    && Blank(h.indent) && Blank(h.before) && Blank(h.after) && Blank(h.trail)
    && Trimmed(h.key) && '=' !in h.key && OneLine(h.key) && (h.key != "" ==> h.key[0] != '#' && h.key[0] != '!')
    && Trimmed(h.value) && OneLine(h.value)
  }

  function Joined(lines: seq<string>): string {
    if lines == [] then "" else lines[0] + "\n" + Joined(lines[1..])
  }

  function WithoutLast(s: string): string {
    if s == "" then s else s[..|s| - 1]
  }

  /** The lines without the blanks around them and without their backslash, one behind the other. */
  function Continued(lines: seq<string>): string {
    if lines == [] then "" else WithoutLast(Trim(lines[0])) + Continued(lines[1..])
  }

  // ---- trimming ----

  lemma TrimOf(a: string, s: string, d: string)
    requires Blank(a) && Blank(d) && Trimmed(s)
    ensures Trim(a + s + d) == s
  {
    hide *;
    TrimIs(a + s + d);
    assert a + s + d == a + (s + d);
    TrimStartSkips(a, s + d);
    StartOfVisible(s, d);
    TrimEndSkips(s, d);
    VisibleEnd(s);
  }

  lemma TrimIs(s: string)
    ensures Trim(s) == TrimEnd(TrimStart(s))
  {
  }

  lemma VisibleEnd(s: string)
    requires Trimmed(s)
    ensures TrimEnd(s) == s && TrimEnd("") == ""
  {
    TrimEndFixed(s);
  }

  lemma StartOfVisible(s: string, d: string)
    requires Blank(d) && Trimmed(s)
    ensures TrimStart(s + d) == if s == "" then "" else s + d
  {
    if s == "" {
      TrimStartSkips(d, "");
      assert d + "" == d && s + d == d;
    } else {
      assert (s + d)[0] == s[0];
    }
  }

  lemma {:induction false} TrimStartSkips(a: string, s: string)
    requires Blank(a)
    ensures TrimStart(a + s) == TrimStart(s)
  {
    if a == "" {
      assert a + s == s;
    } else {
      assert (a + s)[1..] == a[1..] + s;
      TrimStartSkips(a[1..], s);
    }
  }

  lemma {:induction false} TrimEndSkips(s: string, d: string)
    requires Blank(d)
    ensures TrimEnd(s + d) == TrimEnd(s)
    decreases |d|
  {
    if d == "" {
      assert s + d == s;
    } else {
      var front := d[..|d| - 1];
      assert (s + d)[..|s + d| - 1] == s + front;
      TrimEndSkips(s, front);
    }
  }

  lemma {:induction false} TrimStartAppend(s: string, w: char)
    requires IsWhitespace(w)
    ensures TrimStart(s + [w]) == if TrimStart(s) == "" then "" else TrimStart(s) + [w]
  {
    if s == "" {
      assert s + [w] == [w] && [w][1..] == "";
    } else {
      assert (s + [w])[1..] == s[1..] + [w];
      TrimStartAppend(s[1..], w);
    }
  }

  lemma TrimEndAppend(s: string, w: char)
    requires IsWhitespace(w)
    ensures TrimEnd(s + [w]) == TrimEnd(s)
  {
    assert (s + [w])[..|s|] == s;
  }

  lemma TrimWithoutReturn(l: string)
    ensures Trim(WithoutReturn(l)) == Trim(l)
  {
    if l != "" && l[|l| - 1] == '\r' {
      var front := l[..|l| - 1];
      assert l == front + ['\r'] && IsWhitespace('\r');
      TrimStartAppend(front, '\r');
      TrimEndAppend(TrimStart(front), '\r');
    }
  }

  // ---- the reader ----

  lemma LineAhead(l: string, rest: string)
    requires OneLine(l)
    ensures Lines(l + "\n" + rest) == [WithoutReturn(l)] + Lines(rest)
  {
    var s := l + "\n" + rest;
    assert MatchesAt(s, "\n", |l|);
    forall i | 0 <= i < |l|
      ensures !MatchesAt(s, "\n", i)
    {
      assert s[i] == l[i] && l[i] in l;
      if MatchesAt(s, "\n", i) {
        MatchedChar(s, "\n", i, 0);
      }
    }
    var p := Find(s, "\n", 0);
    assert p == Some(|l|);
    assert s[..|l|] == l && s[|l| + 1..] == rest;
  }

  lemma ReadLineTrims(st: Reader, l: string)
    ensures ReadLine(st, WithoutReturn(l)) == ReadLine(st, l)
  {
    TrimWithoutReturn(l);
    hide Trim, WithoutReturn, Find, Finished;
  }

  /** The state behind one line of a text. */
  function Final(st: Reader, content: string): seq<Entry> {
    Finished(ReadLines(st, Lines(content)))
  }

  lemma FinalStep(st: Reader, l: string, rest: string)
    requires OneLine(l)
    ensures Final(st, l + "\n" + rest) == Final(ReadLine(st, l), rest)
  {
    LineAhead(l, rest);
    ReadLineTrims(st, l);
    ReadLinesCons(st, WithoutReturn(l), Lines(rest));
    hide ReadLine, ReadLines, Lines, Finished, WithoutReturn;
  }

  function Prefixed(before: seq<Entry>, st: Reader): Reader {
    st.(entries := before + st.entries)
  }

  lemma StepPrefixed(before: seq<Entry>, st: Reader, line: string)
    ensures ReadLine(Prefixed(before, st), line) == Prefixed(before, ReadLine(st, line))
    ensures Finished(Prefixed(before, st)) == before + Finished(st)
  {
    hide Trim, TrimEnd, Find, IsComment;
    FinishedPrefixed(before, st);
    var t := Trim(line);
    if t != "" && !IsComment(t) && Find(t, "=", 0).None? && t[|t| - 1] != '\\' {
      FinishedPrefixed(before, st.(text := st.text + t));
    }
    hide Finished;
  }

  lemma FinishedPrefixed(before: seq<Entry>, st: Reader)
    ensures Finished(Prefixed(before, st)) == before + Finished(st)
  {
    hide TrimEnd;
    if st.key != "" {
      var e := [Entry(st.key, TrimEnd(st.text))];
      assert before + st.entries + e == before + (st.entries + e);
    }
  }

  /** What was read before stays in front. */
  lemma {:induction false} ReadPrefixed(before: seq<Entry>, st: Reader, lines: seq<string>)
    ensures Finished(ReadLines(Prefixed(before, st), lines)) == before + Finished(ReadLines(st, lines))
    decreases |lines|
  {
    hide ReadLine, Finished, Prefixed;
    if lines == [] {
      StepPrefixed(before, st, "");
    } else {
      StepPrefixed(before, st, lines[0]);
      ReadPrefixed(before, ReadLine(st, lines[0]), lines[1..]);
    }
  }

  /** Text read without a key has no effect. */
  lemma {:induction false} TextNeedsKey(es: seq<Entry>, text: string, lines: seq<string>)
    ensures Finished(ReadLines(Reader(es, "", text), lines)) == Finished(ReadLines(Reader(es, "", ""), lines))
    decreases |lines|
  {
    hide Trim, TrimEnd, Find, IsComment;
    if lines != [] {
      var st, st' := ReadLine(Reader(es, "", text), lines[0]), ReadLine(Reader(es, "", ""), lines[0]);
      if st != st' {
        assert st == Reader(es, "", st.text) && st' == Reader(es, "", st'.text);
        TextNeedsKey(es, st.text, lines[1..]);
        TextNeedsKey(es, st'.text, lines[1..]);
      }
    }
  }

  lemma BackToStart(es: seq<Entry>, text: string, content: string)
    ensures Final(Reader(es, "", text), content) == es + Parsed(content)
  {
    TextNeedsKey(es, text, Lines(content));
    ReadPrefixed(es, Reader([], "", ""), Lines(content));
    assert es + [] == es;
    hide ReadLines, Lines, Finished;
  }

  // ---- the lines one by one ----

  /** The part from the first to the last visible character of such a line. */
  function Left(h: Head): string {
    if h.key == "" then "" else h.key + h.before
  }

  function Right(h: Head): string {
    if h.value == "" then "" else h.after + h.value
  }

  function Core(h: Head): string {
    Left(h) + "=" + Right(h)
  }

  lemma CoreTrimmed(h: Head)
    requires IsHead(h)
    ensures Trimmed(Core(h)) && Core(h) != "" && !IsComment(Core(h))
  {
    var core := Core(h);
    assert core[0] == if h.key == "" then '=' else h.key[0];
    assert core[|core| - 1] == if h.value == "" then '=' else h.value[|h.value| - 1];
  }

  function Before(h: Head): string {
    if h.key == "" then h.indent + h.before else h.indent
  }

  function Behind(h: Head): string {
    if h.value == "" then h.after + h.trail else h.trail
  }

  lemma TextIs(h: Head)
    ensures h.Text() == Before(h) + Core(h) + Behind(h)
  {
    LeftIs(h);
    RightIs(h);
    hide Before, Left, Right, Behind;
    assert h.Text() == (h.indent + h.key + h.before) + "=" + (h.after + h.value + h.trail);
    assert Before(h) + Core(h) + Behind(h) == (Before(h) + Left(h)) + "=" + (Right(h) + Behind(h));
  }

  lemma LeftIs(h: Head)
    ensures Before(h) + Left(h) == h.indent + h.key + h.before
  {
  }

  lemma RightIs(h: Head)
    ensures Right(h) + Behind(h) == h.after + h.value + h.trail
  {
  }

  lemma MarginsAreBlank(h: Head)
    requires IsHead(h)
    ensures Blank(Before(h)) && Blank(Behind(h))
  {
  }

  lemma HeadTrims(h: Head)
    requires IsHead(h)
    ensures Trim(h.Text()) == Core(h)
  {
    hide *;
    TextIs(h);
    MarginsAreBlank(h);
    CoreTrimmed(h);
    TrimOf(Before(h), Core(h), Behind(h));
  }

  lemma EqualsAt(h: Head)
    requires IsHead(h)
    ensures Find(Core(h), "=", 0) == Some(|Left(h)|)
  {
    var t, left := Core(h), Left(h);
    LeftHasNoEquals(h);
    hide Left, Right, IsHead;
    assert t[|left|] == '=';
    assert MatchesAt(t, "=", |left|);
    forall i | 0 <= i < |left|
      ensures !MatchesAt(t, "=", i)
    {
      assert t[i] == left[i] && left[i] in left;
      assert "="[0] == '=';
    }
  }

  lemma LeftHasNoEquals(h: Head)
    requires IsHead(h)
    ensures '=' !in Left(h)
  {
    assert !IsWhitespace('=');
  }

  lemma LeftTrims(h: Head)
    requires IsHead(h)
    ensures Trim(Left(h)) == h.key
  {
    if h.key == "" {
      NothingTrims();
    } else {
      TrimBefore(h.key, h.before);
    }
    hide Trim, Trimmed;
  }

  lemma TrimBefore(s: string, d: string)
    requires Blank(d) && Trimmed(s)
    ensures Trim(s + d) == s
  {
    hide Trim, Trimmed;
    TrimOf("", s, d);
    assert "" + s + d == s + d;
  }

  lemma RightTrims(h: Head)
    requires IsHead(h)
    ensures Trim(Right(h)) == h.value
  {
    TrimOf(h.after, h.value, "");
    hide Trim, Trimmed;
    assert h.after + h.value + "" == h.after + h.value;
    assert Trim("") == "" by {
      NothingTrims();
    }
  }

  lemma NothingTrims()
    ensures Trim("") == ""
  {
  }

  lemma HeadIsOneLine(h: Head)
    requires IsHead(h)
    ensures OneLine(h.Text())
  {
  }

  lemma HeadIsRead(st: Reader, h: Head)
    requires IsHead(h)
    ensures ReadLine(st, h.Text()) == Reader(Finished(st), h.key, h.value)
  {
    CoreSplits(h);
    hide *;
    HeadTrims(h);
    CoreTrimmed(h);
    EqualsAt(h);
    LeftTrims(h);
    RightTrims(h);
    ReadLineAt(st, h.Text(), |Left(h)|);
  }

  lemma CoreSplits(h: Head)
    ensures |Left(h)| < |Core(h)| && Core(h)[..|Left(h)|] == Left(h) && Core(h)[|Left(h)| + 1..] == Right(h)
  {
    hide Left, Right;
  }

  lemma ReadLineAt(st: Reader, line: string, p: nat)
    requires Trim(line) != "" && !IsComment(Trim(line)) && Find(Trim(line), "=", 0) == Some(p) && p < |Trim(line)|
    ensures ReadLine(st, line) == Reader(Finished(st), Trim(Trim(line)[..p]), Trim(Trim(line)[p + 1..]))
  {
    hide Trim, Find, Finished, IsComment;
  }

  lemma PlainHasNoEquals(l: string)
    requires Plain(l)
    ensures Find(Trim(l), "=", 0).None?
  {
    TrimKeeps(l, '=');
    var t := Trim(l);
    hide Trim, Plain;
    forall i: nat
      ensures !MatchesAt(t, "=", i)
    {
      NoMatchOf(t, i);
    }
  }

  lemma NoMatchOf(t: string, i: nat)
    requires '=' !in t
    ensures !MatchesAt(t, "=", i)
  {
    assert i < |t| ==> t[i] in t;
    assert "="[0] == '=';
  }

  lemma ContinuesIsRead(st: Reader, l: string)
    requires Continues(l)
    ensures OneLine(l) && ReadLine(st, l) == st.(text := st.text + WithoutLast(Trim(l)))
  {
    PlainHasNoEquals(l);
    hide Trim, Find, Finished;
  }

  lemma LastIsRead(st: Reader, l: string)
    requires Plain(l) && !Continues(l) && st.key != ""
    ensures OneLine(l)
    ensures ReadLine(st, l) == Reader(st.entries + [Entry(st.key, TrimEnd(st.text + Trim(l)))], "", "")
  {
    PlainHasNoEquals(l);
    hide Trim, Find, TrimEnd;
  }

  lemma SkippedIsRead(st: Reader, l: string)
    requires Skipped(l)
    ensures OneLine(l) && ReadLine(st, l).key == "" && ReadLine(st, l).entries == Finished(st)
  {
    hide Trim, TrimEnd;
  }

  lemma StrayIsRead(es: seq<Entry>, l: string)
    requires Plain(l)
    ensures OneLine(l) && ReadLine(Reader(es, "", ""), l).key == "" && ReadLine(Reader(es, "", ""), l).entries == es
  {
    PlainHasNoEquals(l);
    hide Trim, Find, TrimEnd;
  }

  lemma AllContinueTail(cs: seq<string>)
    requires AllContinue(cs) && cs != []
    ensures Continues(cs[0]) && AllContinue(cs[1..])
  {
    hide Continues;
  }

  lemma ContinuedCons(text: string, cs: seq<string>, rest: string)
    requires cs != []
    ensures Joined(cs) + rest == cs[0] + "\n" + (Joined(cs[1..]) + rest)
    ensures text + WithoutLast(Trim(cs[0])) + Continued(cs[1..]) == text + Continued(cs)
  {
    hide WithoutLast, Trim;
  }

  lemma {:induction false} ContinuationsAreRead(st: Reader, cs: seq<string>, rest: string)
    requires AllContinue(cs)
    ensures Final(st, Joined(cs) + rest) == Final(st.(text := st.text + Continued(cs)), rest)
    decreases |cs|
  {
    if cs == [] {
      assert Joined(cs) + rest == rest && st.text + "" == st.text;
    } else {
      hide *;
      AllContinueTail(cs);
      ContinuedCons(st.text, cs, rest);
      FinalStepContinued(st, cs[0], Joined(cs[1..]) + rest);
      ContinuationsAreRead(st.(text := st.text + WithoutLast(Trim(cs[0]))), cs[1..], rest);
    }
  }

  lemma FinalStepContinued(st: Reader, l: string, rest: string)
    requires Continues(l)
    ensures Final(st, l + "\n" + rest) == Final(st.(text := st.text + WithoutLast(Trim(l))), rest)
  {
    hide *;
    ContinuesIsRead(st, l);
    FinalStep(st, l, rest);
  }

  // ---- whole texts ----

  lemma ParsedIsFinal(content: string)
    ensures Parsed(content) == Final(Reader([], "", ""), content) && Finished(Reader([], "", "")) == []
  {
  }

  lemma FinalHead(st: Reader, h: Head, rest: string)
    requires IsHead(h)
    ensures Final(st, h.Text() + "\n" + rest) == Final(Reader(Finished(st), h.key, h.value), rest)
  {
    hide *;
    HeadIsOneLine(h);
    FinalStep(st, h.Text(), rest);
    HeadIsRead(st, h);
  }

  /** A head line and the lines that continue it. */
  function Opened(h: Head, cs: seq<string>): string {
    h.Text() + "\n" + Joined(cs)
  }

  lemma OpenedAhead(h: Head, cs: seq<string>, rest: string)
    ensures Opened(h, cs) + rest == h.Text() + "\n" + (Joined(cs) + rest)
  {
  }

  /** An entry and its continuing lines are read as the key with all the text so far. */
  lemma EntryIsOpen(h: Head, cs: seq<string>, rest: string)
    requires IsHead(h) && AllContinue(cs)
    ensures Parsed(Opened(h, cs) + rest) == Final(Reader([], h.key, h.value + Continued(cs)), rest)
  {
    hide *;
    OpenedAhead(h, cs, rest);
    ParsedIsFinal(Opened(h, cs) + rest);
    FinalHead(Reader([], "", ""), h, Joined(cs) + rest);
    ContinuationsAreRead(Reader([], h.key, h.value), cs, rest);
  }

  /**
   * An entry, any number of continuing lines and a last line that does not continue: the value is all their text
   * without the blanks around each line and without the backslashes, and then the rest is read.
   */
  lemma ContinuedEntry(h: Head, cs: seq<string>, last: string, rest: string)
    requires IsHead(h) && h.key != "" && AllContinue(cs) && Plain(last) && !Continues(last)
    ensures Parsed(Opened(h, cs) + (last + "\n" + rest)) ==
            [Entry(h.key, TrimEnd(h.value + Continued(cs) + Trim(last)))] + Parsed(rest)
  {
    hide *;
    EntryIsOpen(h, cs, last + "\n" + rest);
    var st := Reader([], h.key, h.value + Continued(cs));
    LastIsRead(st, last);
    FinalStep(st, last, rest);
    var e := Entry(h.key, TrimEnd(h.value + Continued(cs) + Trim(last)));
    assert st.entries + [e] == [e];
    BackToStart([e], "", rest);
  }

  /** An entry and its continuing lines end at a blank line or a comment. */
  lemma EntryBeforeSkipped(h: Head, cs: seq<string>, skipped: string, rest: string)
    requires IsHead(h) && h.key != "" && AllContinue(cs) && Skipped(skipped)
    ensures Parsed(Opened(h, cs) + (skipped + "\n" + rest)) ==
            [Entry(h.key, TrimEnd(h.value + Continued(cs)))] + Parsed(rest)
  {
    hide *;
    EntryIsOpen(h, cs, skipped + "\n" + rest);
    var st := Reader([], h.key, h.value + Continued(cs));
    SkippedIsRead(st, skipped);
    FinalStep(st, skipped, rest);
    FinishedOne(st);
    BackToStart(Finished(st), ReadLine(st, skipped).text, rest);
  }

  /** They end at the end of the text. */
  lemma EntryBeforeEnd(h: Head, cs: seq<string>)
    requires IsHead(h) && h.key != "" && AllContinue(cs)
    ensures Parsed(Opened(h, cs)) == [Entry(h.key, TrimEnd(h.value + Continued(cs)))]
  {
    FinalOfNothing(Reader([], h.key, h.value + Continued(cs)));
    hide *;
    EntryIsOpen(h, cs, "");
    FinishedOne(Reader([], h.key, h.value + Continued(cs)));
    assert Opened(h, cs) + "" == Opened(h, cs);
  }

  lemma FinalOfNothing(st: Reader)
    ensures Final(st, "") == Finished(st)
  {
  }

  /** They end at the next entry. */
  lemma EntryBeforeEntry(h: Head, cs: seq<string>, next: Head, rest: string)
    requires IsHead(h) && h.key != "" && AllContinue(cs) && IsHead(next)
    ensures Parsed(Opened(h, cs) + (next.Text() + "\n" + rest)) ==
            [Entry(h.key, TrimEnd(h.value + Continued(cs)))] + Parsed(next.Text() + "\n" + rest)
  {
    hide *;
    EntryIsOpen(h, cs, next.Text() + "\n" + rest);
    var st := Reader([], h.key, h.value + Continued(cs));
    FinalHead(st, next, rest);
    FinishedOne(st);
    ParsedIsFinal(next.Text() + "\n" + rest);
    FinalHead(Reader([], "", ""), next, rest);
    FinalPrefixed(Finished(st), Reader([], next.key, next.value), rest);
  }

  lemma FinishedOne(st: Reader)
    requires st.key != "" && st.entries == []
    ensures Finished(st) == [Entry(st.key, TrimEnd(st.text))]
  {
  }

  lemma FinalPrefixed(before: seq<Entry>, st: Reader, content: string)
    ensures Final(Reader(before + st.entries, st.key, st.text), content) == before + Final(st, content)
    ensures st.entries == [] ==> Final(Reader(before, st.key, st.text), content) == before + Final(st, content)
  {
    hide ReadLines, Lines, Finished;
    ReadPrefixed(before, st, Lines(content));
    assert before + [] == before;
  }

  /** Blank lines, comments and plain lines with no entry open: as if they were not there. */
  lemma IgnoredLine(l: string, rest: string)
    requires Skipped(l) || Plain(l)
    ensures Parsed(l + "\n" + rest) == Parsed(rest)
  {
    hide *;
    if Skipped(l) {
      SkippedIsRead(Reader([], "", ""), l);
    } else {
      StrayIsRead([], l);
    }
    ParsedIsFinal(l + "\n" + rest);
    FinalStep(Reader([], "", ""), l, rest);
    BackToStart([], ReadLine(Reader([], "", ""), l).text, rest);
    assert [] + Parsed(rest) == Parsed(rest);
  }

  /** A line without a key before its `=`, and the lines that continue it. */
  lemma NoKeyIsIgnored(h: Head, cs: seq<string>, rest: string)
    requires IsHead(h) && h.key == "" && AllContinue(cs)
    ensures Parsed(Opened(h, cs) + rest) == Parsed(rest)
  {
    hide *;
    EntryIsOpen(h, cs, rest);
    BackToStart([], h.value + Continued(cs), rest);
    assert [] + Parsed(rest) == Parsed(rest);
  }

  // ---- the last line ----

  lemma NoFeedIn(s: string, i: nat)
    requires OneLine(s)
    ensures !MatchesAt(s, "\n", i)
  {
    assert i < |s| ==> s[i] in s;
    assert "\n"[0] == '\n';
  }

  lemma OneLineText(s: string)
    requires s != "" && OneLine(s)
    ensures Lines(s) == [s] && Lines(s + "\n") == [WithoutReturn(s)]
  {
    LineAhead(s, "");
    assert s + "\n" + "" == s + "\n";
    forall i: nat
      ensures !MatchesAt(s, "\n", i)
    {
      NoFeedIn(s, i);
    }
  }

  lemma FirstFeed(s: string) returns (n: nat)
    requires !OneLine(s)
    ensures n < |s| && s == s[..n] + "\n" + s[n + 1..] && OneLine(s[..n])
  {
    var j :| 0 <= j < |s| && s[j] == '\n';
    assert MatchesAt(s, "\n", j);
    n := Find(s, "\n", 0).value;
    NoFeedBefore(s, n);
    MatchedChar(s, "\n", n, 0);
  }

  /** The lines of a text are the same with a line feed behind it, up to a carriage return of the last. */
  lemma {:induction false} LinesWithFeed(s: string)
    requires s != "" && s[|s| - 1] != '\n'
    ensures Lines(s) != []
    ensures var ls := Lines(s);
      Lines(s + "\n") == ls[..|ls| - 1] + [WithoutReturn(ls[|ls| - 1])]
    decreases |s|
  {
    hide Lines, WithoutReturn;
    if OneLine(s) {
      OneLineText(s);
    } else {
      var n := FirstFeed(s);
      var l, rest := s[..n], s[n + 1..];
      assert s + "\n" == l + "\n" + (rest + "\n");
      LineAhead(l, rest);
      LineAhead(l, rest + "\n");
      LinesWithFeed(rest);
      var ls := Lines(rest);
      assert ([WithoutReturn(l)] + ls)[..|ls|] == [WithoutReturn(l)] + ls[..|ls| - 1];
    }
  }

  /** A last line counts without a line feed behind it. */
  lemma FeedIsNotNeeded(s: string)
    requires s != "" && s[|s| - 1] != '\n'
    ensures Parsed(s + "\n") == Parsed(s)
  {
    hide *;
    LinesWithFeed(s);
    var ls := Lines(s);
    var front, last := ls[..|ls| - 1], ls[|ls| - 1];
    assert ls == front + [last];
    var st := Reader([], "", "");
    ParsedLines(s);
    ParsedLines(s + "\n");
    ReadLinesAppend(st, front, last);
    ReadLinesAppend(st, front, WithoutReturn(last));
    ReadLineTrims(ReadLines(st, front), last);
  }

  lemma ParsedLines(s: string)
    ensures Parsed(s) == Finished(ReadLines(Reader([], "", ""), Lines(s)))
  {
  }
}
