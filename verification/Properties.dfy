/** Properties files: the line parser with its continuations, and the key-by-key merge that prints its result. */
module Properties {
  import opened Wrappers
  import opened Text

  datatype Entry = Entry(key: string, value: string)

  // ---- lines ----

  /** Rust's `lines`: a line feed ends a line, with the carriage return before it. */
  function Lines(s: string): (lines: seq<string>)
    decreases |s|
  {
    if s == "" then []
    else
      match Find(s, "\n", 0)
      case None => [s]
      case Some(p) => [WithoutReturn(s[..p])] + Lines(s[p + 1..])
  }

  function WithoutReturn(line: string): string {
    if line != "" && line[|line| - 1] == '\r' then line[..|line| - 1] else line
  }

  lemma {:induction false} LinesHaveNoFeed(s: string)
    ensures forall i :: 0 <= i < |Lines(s)| ==> '\n' !in Lines(s)[i]
    decreases |s|
  {
    if s != "" {
      var p := Find(s, "\n", 0);
      if p.None? {
        NoFeedBefore(s, |s|);
      } else {
        NoFeedBefore(s, p.value);
        LinesHaveNoFeed(s[p.value + 1..]);
      }
    }
  }

  lemma NoFeedBefore(s: string, n: nat)
    requires n <= |s|
    requires match Find(s, "\n", 0) case None => true case Some(p) => n <= p
    ensures '\n' !in s[..n]
  {
    forall i | 0 <= i < n
      ensures s[i] != '\n'
    {
      assert !MatchesAt(s, "\n", i);
    }
  }

  // ---- the parser ----

  /** The entries so far, the key being read ("" for none) and its text so far. */
  datatype Reader = Reader(entries: seq<Entry>, key: string, text: string)

  function Finished(st: Reader): seq<Entry> {
    if st.key == "" then st.entries else st.entries + [Entry(st.key, TrimEnd(st.text))]
  }

  predicate IsComment(trimmed: string) {
    trimmed != "" && (trimmed[0] == '#' || trimmed[0] == '!')
  }

  function ReadLine(st: Reader, line: string): Reader {
    var t := Trim(line);
    if t == "" || IsComment(t) then
      if st.key == "" then st else Reader(Finished(st), "", "")
    else
      match Find(t, "=", 0)
      case Some(p) => Reader(Finished(st), Trim(t[..p]), Trim(t[p + 1..]))
      case None =>
        if t[|t| - 1] == '\\' then st.(text := st.text + t[..|t| - 1])
        else if st.key == "" then st
        else Reader(Finished(st.(text := st.text + t)), "", "")
  }

  function ReadLines(st: Reader, lines: seq<string>): Reader
    decreases |lines|
  {
    if lines == [] then st else ReadLines(ReadLine(st, lines[0]), lines[1..])
  }

  function Parsed(content: string): seq<Entry> {
    Finished(ReadLines(Reader([], "", ""), Lines(content)))
  }

  lemma {:induction false} ReadLinesAppend(st: Reader, lines: seq<string>, line: string)
    ensures ReadLines(st, lines + [line]) == ReadLine(ReadLines(st, lines), line)
    decreases |lines|
  {
    hide ReadLine;
    if lines == [] {
      assert lines + [line] == [line];
    } else {
      assert (lines + [line])[1..] == lines[1..] + [line];
      ReadLinesAppend(ReadLine(st, lines[0]), lines[1..], line);
    }
  }

  lemma ReadNothing(st: Reader)
    ensures ReadLines(st, []) == st
  {
  }

  method ParseProperties(content: string) returns (entries: seq<Entry>)
    ensures entries == Parsed(content)
  {
    hide ReadLines, Lines, Trim, TrimEnd, Find;
    assert ReadLines(Reader([], "", ""), []) == Reader([], "", "") by {
      ReadNothing(Reader([], "", ""));
    }
    entries := [];
    var continuation := "";
    var currentKey := "";
    var lines := Lines(content);
    for i := 0 to |lines|
      invariant Reader(entries, currentKey, continuation) == ReadLines(Reader([], "", ""), lines[..i])
    {
      assert lines[..i + 1] == lines[..i] + [lines[i]];
      ReadLinesAppend(Reader([], "", ""), lines[..i], lines[i]);
      var trimmed := Trim(lines[i]);
      if trimmed == "" || trimmed[0] == '#' || trimmed[0] == '!' {
        if currentKey != "" {
          entries := entries + [Entry(currentKey, TrimEnd(continuation))];
          currentKey := "";
          continuation := "";
        }
        continue;
      }
      var eq := Find(trimmed, "=", 0);
      if eq.Some? {
        if currentKey != "" {
          entries := entries + [Entry(currentKey, TrimEnd(continuation))];
        }
        currentKey := Trim(trimmed[..eq.value]);
        continuation := Trim(trimmed[eq.value + 1..]);
      } else if trimmed[|trimmed| - 1] == '\\' {
        continuation := continuation + trimmed[..|trimmed| - 1];
      } else if currentKey != "" {
        continuation := continuation + trimmed;
        entries := entries + [Entry(currentKey, TrimEnd(continuation))];
        currentKey := "";
        continuation := "";
      }
    }
    assert lines[..|lines|] == lines;
    if currentKey != "" {
      entries := entries + [Entry(currentKey, TrimEnd(continuation))];
    }
  }

  // ---- what the parser produces ----

  predicate KeyOk(key: string) {
    key != "" && Trimmed(key) && '=' !in key && '\n' !in key && key[0] != '#' && key[0] != '!'
  }

  predicate ValueOk(value: string) {
    Trimmed(value) && '\n' !in value
  }

  /** An entry that survives being written on a line of its own. */
  predicate WellFormed(e: Entry) {
    KeyOk(e.key) && ValueOk(e.value)
  }

  predicate AllWellFormed(es: seq<Entry>) {
    forall i :: 0 <= i < |es| ==> WellFormed(es[i])
  }

  predicate TextOk(text: string) {
    (text != "" ==> !IsWhitespace(text[0])) && '\n' !in text
  }

  predicate ReaderOk(st: Reader) {
    AllWellFormed(st.entries) && (st.key != "" ==> KeyOk(st.key) && TextOk(st.text))
  }

  lemma FinishedOk(st: Reader)
    requires ReaderOk(st)
    ensures AllWellFormed(Finished(st))
  {
    if st.key != "" {
      var v := TrimEnd(st.text);
      assert v <= st.text;
      assert v != "" ==> v[0] == st.text[0];
    }
  }

  lemma TrimKeeps(s: string, c: char)
    requires c !in s
    ensures c !in Trim(s) && Trimmed(Trim(s))
    ensures Trim(s) != "" && !IsWhitespace(s[0]) ==> Trim(s)[0] == s[0]
    ensures s != "" && !IsWhitespace(s[0]) ==> Trim(s) != ""
  {
    TrimIsTrimmed(s);
    TrimEmpty(s);
  }

  lemma SplitAtEquals(t: string, p: nat)
    requires Find(t, "=", 0) == Some(p) && '\n' !in t && Trimmed(t) && !IsComment(t)
    ensures Trim(t[..p]) != "" ==> KeyOk(Trim(t[..p]))
    ensures TextOk(Trim(t[p + 1..]))
  {
    var key := t[..p];
    forall i | 0 <= i < p
      ensures t[i] != '='
    {
      assert !MatchesAt(t, "=", i);
    }
    assert MatchesAt(t, "=", p);
    assert '=' !in key && '\n' !in key && '\n' !in t[p + 1..];
    TrimKeeps(key, '=');
    TrimKeeps(key, '\n');
    TrimKeeps(t[p + 1..], '\n');
    assert Trim(key) != "" ==> key != "" && key[0] == t[0];
  }

  lemma ReadLineKeepsOk(st: Reader, line: string)
    requires ReaderOk(st) && '\n' !in line
    ensures ReaderOk(ReadLine(st, line))
  {
    var t := Trim(line);
    TrimKeeps(line, '\n');
    FinishedOk(st);
    if t != "" && !IsComment(t) {
      var eq := Find(t, "=", 0);
      if eq.Some? {
        SplitAtEquals(t, eq.value);
      } else if t[|t| - 1] != '\\' && st.key != "" {
        FinishedOk(st.(text := st.text + t));
      }
    }
    hide KeyOk, AllWellFormed, Find, Trim;
  }

  lemma {:induction false} ReadLinesKeepsOk(st: Reader, lines: seq<string>)
    requires ReaderOk(st) && forall i :: 0 <= i < |lines| ==> '\n' !in lines[i]
    ensures ReaderOk(ReadLines(st, lines))
    decreases |lines|
  {
    hide ReaderOk, ReadLine;
    if lines != [] {
      ReadLineKeepsOk(st, lines[0]);
      ReadLinesKeepsOk(ReadLine(st, lines[0]), lines[1..]);
    }
  }

  /** Every entry parsed from any text is well formed. */
  lemma ParsedIsWellFormed(content: string)
    ensures AllWellFormed(Parsed(content))
  {
    LinesHaveNoFeed(content);
    assert ReaderOk(Reader([], "", ""));
    ReadLinesKeepsOk(Reader([], "", ""), Lines(content));
    FinishedOk(ReadLines(Reader([], "", ""), Lines(content)));
  }

  // ---- printing and parsing back ----

  function Line(e: Entry): string {
    e.key + "=" + e.value
  }

  function Printed(es: seq<Entry>): string {
    if es == [] then "" else Line(es[0]) + "\n" + Printed(es[1..])
  }

  function PrintedLines(es: seq<Entry>): seq<string> {
    seq(|es|, i requires 0 <= i < |es| => Line(es[i]))
  }

  lemma LineIsClean(e: Entry)
    requires WellFormed(e)
    ensures var l := Line(e);
      && Trim(l) == l && l != "" && !IsComment(l) && '\n' !in l && WithoutReturn(l) == l
      && Find(l, "=", 0) == Some(|e.key|)
  {
    var l := Line(e);
    assert l[0] == e.key[0] && l[|e.key|] == '=';
    assert l[|l| - 1] == if e.value == "" then '=' else e.value[|e.value| - 1];
    TrimIsTrimmed(l);
    assert MatchesAt(l, "=", |e.key|);
    forall i | 0 <= i < |e.key|
      ensures !MatchesAt(l, "=", i)
    {
      assert l[i] == e.key[i] && e.key[i] in e.key;
    }
    assert IsWhitespace('\r');
  }

  lemma FirstLine(l: string, rest: string)
    requires '\n' !in l && WithoutReturn(l) == l
    ensures Lines(l + "\n" + rest) == [l] + Lines(rest)
  {
    var s := l + "\n" + rest;
    assert MatchesAt(s, "\n", |l|);
    forall i | 0 <= i < |l|
      ensures !MatchesAt(s, "\n", i)
    {
      assert s[i] == l[i] && l[i] in l;
      if MatchesAt(s, "\n", i) {
        MatchedChar(s, "\n", i, 0);
      }
    }
    var p := Find(s, "\n", 0);
    assert p == Some(|l|);
    assert s[..|l|] == l && s[|l| + 1..] == rest;
  }

  lemma PrintedLinesCons(es: seq<Entry>)
    requires es != []
    ensures PrintedLines(es) == [Line(es[0])] + PrintedLines(es[1..])
  {
  }

  lemma {:induction false} LinesOfPrinted(es: seq<Entry>)
    requires AllWellFormed(es)
    ensures Lines(Printed(es)) == PrintedLines(es)
  {
    hide WellFormed, Line;
    if es != [] {
      var rest := es[1..];
      assert AllWellFormed(rest) && WellFormed(es[0]);
      assert Printed(es) == Line(es[0]) + "\n" + Printed(rest);
      hide AllWellFormed, Lines, Printed, PrintedLines, IsComment, WithoutReturn, Trim;
      LineIsClean(es[0]);
      FirstLine(Line(es[0]), Printed(rest));
      LinesOfPrinted(rest);
      PrintedLinesCons(es);
    }
  }

  lemma ReadsLine(st: Reader, e: Entry)
    requires WellFormed(e)
    ensures ReadLine(st, Line(e)) == Reader(Finished(st), e.key, e.value)
    ensures TrimEnd(e.value) == e.value
  {
    LineIsClean(e);
    var l := Line(e);
    assert l[..|e.key|] == e.key && l[|e.key| + 1..] == e.value;
    TrimIsTrimmed(e.key);
    TrimIsTrimmed(e.value);
    TrimEndFixed(e.value);
    hide Find, Trim, TrimEnd, WithoutReturn, Finished;
  }

  lemma ReadLinesCons(st: Reader, line: string, lines: seq<string>)
    ensures ReadLines(st, [line] + lines) == ReadLines(ReadLine(st, line), lines)
  {
    hide ReadLine;
    assert ([line] + lines)[1..] == lines;
  }

  lemma ReadsEntry(st: Reader, e: Entry)
    requires WellFormed(e)
    ensures Finished(ReadLine(st, Line(e))) == Finished(st) + [e]
  {
    KeyNotEmpty(e);
    ReadsLine(st, e);
    hide WellFormed, Line, ReadLine, TrimEnd;
  }

  lemma {:induction false} ReadsPrintedLines(st: Reader, es: seq<Entry>)
    requires AllWellFormed(es)
    ensures Finished(ReadLines(st, PrintedLines(es))) == Finished(st) + es
    decreases |es|
  {
    hide WellFormed, Line, ReadLine, Finished;
    if es == [] {
      assert PrintedLines(es) == [];
      assert Finished(st) + es == Finished(st);
    } else {
      var rest := es[1..];
      assert AllWellFormed(rest) && WellFormed(es[0]);
      hide AllWellFormed, ReadLines, PrintedLines;
      PrintedLinesCons(es);
      ReadLinesCons(st, Line(es[0]), PrintedLines(rest));
      ReadsEntry(st, es[0]);
      ReadsPrintedLines(ReadLine(st, Line(es[0])), rest);
      assert es == [es[0]] + rest;
      assert Finished(st) + es == Finished(st) + [es[0]] + rest;
    }
  }

  lemma KeyNotEmpty(e: Entry)
    requires WellFormed(e)
    ensures e.key != ""
  {
  }

  /** Printed entries parse back exactly when each is well formed: the parser's own output always does. */
  lemma ParsesBackIff(es: seq<Entry>)
    ensures Parsed(Printed(es)) == es <==> AllWellFormed(es)
  {
    ParsedIsWellFormed(Printed(es));
    if AllWellFormed(es) {
      LinesOfPrinted(es);
      ReadsPrintedLines(Reader([], "", ""), es);
    }
  }

  // ---- the merge ----

  /** The map collected from a list: a later entry replaces an earlier one. */
  function MapOf(es: seq<Entry>): map<string, string> {
    if es == [] then map[] else MapOf(es[..|es| - 1])[es[|es| - 1].key := es[|es| - 1].value]
  }

  function Get(m: map<string, string>, key: string): Option<string> {
    if key in m then Some(m[key]) else None
  }

  predicate Conflict(base: Option<string>, ours: Option<string>, theirs: Option<string>) {
    ours != base && theirs != base && ours != theirs
  }

  predicate Conflicting(base: seq<Entry>, ours: seq<Entry>, theirs: seq<Entry>) {
    var b, o, t := MapOf(base), MapOf(ours), MapOf(theirs);
    exists key :: key in b.Keys + o.Keys + t.Keys && Conflict(Get(b, key), Get(o, key), Get(t, key))
  }

  function Or(a: Option<string>, b: Option<string>): Option<string> {
    if a.Some? then a else b
  }

  /** The value written for a key, if any. */
  function MergedValue(base: Option<string>, ours: Option<string>, theirs: Option<string>): Option<string> {
    if ours.None? then theirs
    else if ours == base then Or(theirs, base)
    else ours
  }

  /** The keys of the first `n` entries that are not in `seen`, each where it first stands. */
  function NewKeys(es: seq<Entry>, n: nat, seen: set<string>): (r: seq<string>)
    requires n <= |es|
  {
    if n == 0 then []
    else
      var before := NewKeys(es, n - 1, seen);
      var key := es[n - 1].key;
      if key in seen || key in before then before else before + [key]
  }

  function ToSet(s: seq<string>): set<string> {
    set x | x in s
  }

  function MergedKeys(ours: seq<Entry>, theirs: seq<Entry>): seq<string> {
    var own := NewKeys(ours, |ours|, {});
    own + NewKeys(theirs, |theirs|, ToSet(own))
  }

  function ValueFor(base: seq<Entry>, ours: seq<Entry>, theirs: seq<Entry>, key: string): Option<string> {
    MergedValue(Get(MapOf(base), key), Get(MapOf(ours), key), Get(MapOf(theirs), key))
  }

  function Chosen(base: seq<Entry>, ours: seq<Entry>, theirs: seq<Entry>, keys: seq<string>): seq<Entry> {
    if keys == [] then []
    else
      var key := keys[|keys| - 1];
      var front := Chosen(base, ours, theirs, keys[..|keys| - 1]);
      match ValueFor(base, ours, theirs, key)
      case Some(v) => front + [Entry(key, v)]
      case None => front
  }

  function Merged(base: seq<Entry>, ours: seq<Entry>, theirs: seq<Entry>): seq<Entry> {
    Chosen(base, ours, theirs, MergedKeys(ours, theirs))
  }

  lemma {:induction false} KeysOfMap(es: seq<Entry>, n: nat)
    requires n <= |es|
    ensures MapOf(es[..n]).Keys == set i | 0 <= i < n :: es[i].key
  {
    if n > 0 {
      KeysOfMap(es, n - 1);
      assert es[..n][..n - 1] == es[..n - 1];
      assert (set i | 0 <= i < n :: es[i].key) == (set i | 0 <= i < n - 1 :: es[i].key) + {es[n - 1].key};
    }
  }

  predicate Distinct(s: seq<string>) {
    forall i, j :: 0 <= i < j < |s| ==> s[i] != s[j]
  }

  lemma {:induction false} NewKeysAre(es: seq<Entry>, n: nat, seen: set<string>)
    requires n <= |es|
    ensures Distinct(NewKeys(es, n, seen))
    ensures ToSet(NewKeys(es, n, seen)) == MapOf(es[..n]).Keys - seen
  {
    if n > 0 {
      NewKeysAre(es, n - 1, seen);
      assert es[..n][..n - 1] == es[..n - 1];
      var before := NewKeys(es, n - 1, seen);
      assert forall x :: x in before <==> x in ToSet(before);
    }
  }

  lemma AppendKeys(a: seq<string>, b: seq<string>)
    requires Distinct(a) && Distinct(b) && ToSet(a) !! ToSet(b)
    ensures Distinct(a + b) && ToSet(a + b) == ToSet(a) + ToSet(b)
  {
    assert forall i :: 0 <= i < |a| ==> a[i] in ToSet(a);
    assert forall i :: 0 <= i < |b| ==> b[i] in ToSet(b);
  }

  /** The keys of the result: each key of either side once, in the order of ours and then of theirs. */
  lemma MergedKeysAre(ours: seq<Entry>, theirs: seq<Entry>)
    ensures Distinct(MergedKeys(ours, theirs))
    ensures ToSet(MergedKeys(ours, theirs)) == MapOf(ours).Keys + MapOf(theirs).Keys
  {
    var own := NewKeys(ours, |ours|, {});
    var other := NewKeys(theirs, |theirs|, ToSet(own));
    NewKeysAre(ours, |ours|, {});
    NewKeysAre(theirs, |theirs|, ToSet(own));
    assert ours[..|ours|] == ours && theirs[..|theirs|] == theirs;
    hide NewKeys, MapOf, Distinct, ToSet;
    AppendKeys(own, other);
  }

  // ---- the merge as the code runs it ----

  lemma PrintedAppend(es: seq<Entry>, e: Entry)
    ensures Printed(es + [e]) == Printed(es) + (Line(e) + "\n")
    decreases |es|
  {
    hide Line;
    if es == [] {
      assert [e][1..] == [];
    } else {
      assert (es + [e])[1..] == es[1..] + [e];
      PrintedAppend(es[1..], e);
    }
  }

  /** Writing the line of one more key. */
  lemma ChosenStep(base: seq<Entry>, ours: seq<Entry>, theirs: seq<Entry>, keys: seq<string>, key: string)
    ensures var before := Printed(Chosen(base, ours, theirs, keys));
      Printed(Chosen(base, ours, theirs, keys + [key])) ==
      match ValueFor(base, ours, theirs, key)
      case Some(v) => before + (Line(Entry(key, v)) + "\n")
      case None => before
  {
    hide ValueFor, Line;
    assert (keys + [key])[..|keys|] == keys;
    var value := ValueFor(base, ours, theirs, key);
    if value.Some? {
      PrintedAppend(Chosen(base, ours, theirs, keys), Entry(key, value.value));
    }
  }

  lemma KeyInMap(es: seq<Entry>, i: nat)
    requires i < |es|
    ensures es[i].key in MapOf(es)
  {
    KeysOfMap(es, |es|);
    assert es[..|es|] == es;
  }

  /** Whether any key changed differently on both sides; the keys are tried in no particular order. */
  method AnyConflict(b: map<string, string>, o: map<string, string>, t: map<string, string>) returns (r: bool)
    ensures r <==> exists key :: key in b.Keys + o.Keys + t.Keys && Conflict(Get(b, key), Get(o, key), Get(t, key))
  {
    var todo := b.Keys + o.Keys + t.Keys;
    while todo != {}
      invariant todo <= b.Keys + o.Keys + t.Keys
      invariant forall key :: key in b.Keys + o.Keys + t.Keys - todo ==>
        !Conflict(Get(b, key), Get(o, key), Get(t, key))
    {
      var key :| key in todo;
      if Get(o, key) != Get(b, key) && Get(t, key) != Get(b, key) && Get(o, key) != Get(t, key) {
        return true;
      }
      todo := todo - {key};
    }
    r := false;
  }

  method WriteEntry(text: string, key: string, value: string) returns (r: string)
    ensures r == text + (Line(Entry(key, value)) + "\n")
  {
    r := text + key + "=" + value + "\n";
  }

  lemma NextKey(es: seq<Entry>, i: nat, seen: set<string>)
    requires i < |es|
    ensures var before, key := NewKeys(es, i, seen), es[i].key;
      NewKeys(es, i + 1, seen) == if key in seen || key in before then before else before + [key]
  {
  }

  /** The lines for the keys of ours. */
  method WriteOurs(base: seq<Entry>, ours: seq<Entry>, theirs: seq<Entry>) returns (text: string, seen: seq<string>)
    ensures seen == NewKeys(ours, |ours|, {})
    ensures text == Printed(Chosen(base, ours, theirs, seen))
  {
    var b, o, t := MapOf(base), MapOf(ours), MapOf(theirs);
    NoKeys(ours, {});
    hide Printed, Chosen, NewKeys, MapOf, Get, Line, ValueFor, Or;
    text := "";
    seen := [];
    ChosenNothing(base, ours, theirs);
    for i := 0 to |ours|
      invariant seen == NewKeys(ours, i, {})
      invariant text == Printed(Chosen(base, ours, theirs, seen))
    {
      var key := ours[i].key;
      NextKey(ours, i, {});
      if key !in seen {
        KeyInMap(ours, i);
        ChosenStep(base, ours, theirs, seen, key);
        ChosenForOurs(base, ours, theirs, key);
        seen := seen + [key];
        var merged := if Get(o, key) == Get(b, key) then Or(Get(t, key), Get(b, key)) else Get(o, key);
        if merged.Some? {
          text := WriteEntry(text, key, merged.value);
        }
      }
    }
  }

  /** The lines for the keys that only theirs has, behind those of ours. */
  method WriteTheirs(base: seq<Entry>, ours: seq<Entry>, theirs: seq<Entry>, text: string, own: seq<string>)
    returns (r: string)
    requires own == NewKeys(ours, |ours|, {}) && text == Printed(Chosen(base, ours, theirs, own))
    ensures r == Printed(Chosen(base, ours, theirs, own + NewKeys(theirs, |theirs|, ToSet(own))))
  {
    var t := MapOf(theirs);
    NoKeys(theirs, ToSet(own));
    hide Printed, Chosen, NewKeys, MapOf, Get, Line, ValueFor, ToSet;
    r := text;
    var seen := own;
    for i := 0 to |theirs|
      invariant seen == own + NewKeys(theirs, i, ToSet(own))
      invariant r == Printed(Chosen(base, ours, theirs, seen))
    {
      var key := theirs[i].key;
      NextKey(theirs, i, ToSet(own));
      MembersOf(own, NewKeys(theirs, i, ToSet(own)), key);
      if key !in seen {
        NotOurs(ours, key);
        ChosenStep(base, ours, theirs, seen, key);
        ChosenForTheirs(base, ours, theirs, key);
        seen := seen + [key];
        var value := Get(t, key);
        if value.Some? {
          r := WriteEntry(r, key, value.value);
        }
      }
    }
  }

  method MergeProperties(base: seq<Entry>, ours: seq<Entry>, theirs: seq<Entry>) returns (r: Option<string>)
    ensures r == if Conflicting(base, ours, theirs) then None else Some(Printed(Merged(base, ours, theirs)))
  {
    var conflict := AnyConflict(MapOf(base), MapOf(ours), MapOf(theirs));
    if conflict {
      return None;
    }
    var text, seen := WriteOurs(base, ours, theirs);
    text := WriteTheirs(base, ours, theirs, text, seen);
    MergedIs(base, ours, theirs);
    r := Some(text);
  }

  lemma MergedIs(base: seq<Entry>, ours: seq<Entry>, theirs: seq<Entry>)
    ensures var own := NewKeys(ours, |ours|, {});
      Merged(base, ours, theirs) == Chosen(base, ours, theirs, own + NewKeys(theirs, |theirs|, ToSet(own)))
  {
  }

  lemma MembersOf(a: seq<string>, b: seq<string>, key: string)
    ensures key in a + b <==> key in ToSet(a) || key in b
  {
  }

  lemma NoKeys(es: seq<Entry>, seen: set<string>)
    ensures NewKeys(es, 0, seen) == []
  {
  }

  lemma ChosenForOurs(base: seq<Entry>, ours: seq<Entry>, theirs: seq<Entry>, key: string)
    requires key in MapOf(ours)
    ensures var b, o, t := Get(MapOf(base), key), Get(MapOf(ours), key), Get(MapOf(theirs), key);
      ValueFor(base, ours, theirs, key) == if o == b then Or(t, b) else o
  {
  }

  lemma ChosenForTheirs(base: seq<Entry>, ours: seq<Entry>, theirs: seq<Entry>, key: string)
    requires key !in MapOf(ours)
    ensures ValueFor(base, ours, theirs, key) == Get(MapOf(theirs), key)
  {
  }

  lemma ChosenNothing(base: seq<Entry>, ours: seq<Entry>, theirs: seq<Entry>)
    ensures Printed(Chosen(base, ours, theirs, [])) == ""
  {
  }

  lemma NotOurs(ours: seq<Entry>, key: string)
    ensures key in MapOf(ours) <==> key in NewKeys(ours, |ours|, {})
  {
    NewKeysAre(ours, |ours|, {});
    assert ours[..|ours|] == ours;
    assert key in NewKeys(ours, |ours|, {}) <==> key in ToSet(NewKeys(ours, |ours|, {}));
  }

  // ---- what the merge means ----

  lemma {:induction false} ChosenMap(
      base: seq<Entry>, ours: seq<Entry>, theirs: seq<Entry>, keys: seq<string>, key: string)
    requires Distinct(keys)
    ensures Get(MapOf(Chosen(base, ours, theirs, keys)), key) ==
            if key in keys then ValueFor(base, ours, theirs, key) else None
    decreases |keys|
  {
    hide ValueFor;
    if keys != [] {
      var front, last := keys[..|keys| - 1], keys[|keys| - 1];
      assert keys == front + [last] && last !in front;
      ChosenMap(base, ours, theirs, front, key);
      var es := Chosen(base, ours, theirs, front);
      var value := ValueFor(base, ours, theirs, last);
      if value.Some? {
        assert (es + [Entry(last, value.value)])[..|es|] == es;
      }
    }
  }

  /** Key by key, the merged list holds the chosen value, and no key that neither side has. */
  lemma MergedMap(base: seq<Entry>, ours: seq<Entry>, theirs: seq<Entry>, key: string)
    ensures Get(MapOf(Merged(base, ours, theirs)), key) == ValueFor(base, ours, theirs, key)
  {
    MergedKeysAre(ours, theirs);
    var keys := MergedKeys(ours, theirs);
    assert key in keys <==> key in ToSet(keys);
    ChosenMap(base, ours, theirs, keys, key);
    hide MergedKeys, Chosen, MapOf;
  }

  lemma {:induction false} ChosenKeys(base: seq<Entry>, ours: seq<Entry>, theirs: seq<Entry>, keys: seq<string>)
    requires forall k :: k in keys ==> k in MapOf(ours) || k in MapOf(theirs)
    ensures var es := Chosen(base, ours, theirs, keys);
      |es| == |keys| && forall i :: 0 <= i < |es| ==> es[i].key == keys[i]
    decreases |keys|
  {
    hide MapOf;
    if keys != [] {
      ChosenKeys(base, ours, theirs, keys[..|keys| - 1]);
      assert keys[|keys| - 1] in keys;
      assert ValueFor(base, ours, theirs, keys[|keys| - 1]).Some?;
    }
  }

  function KeysOf(es: seq<Entry>): seq<string> {
    seq(|es|, i requires 0 <= i < |es| => es[i].key)
  }

  /** The result holds every key of either side exactly once. */
  lemma MergedKeysAreTheUnion(base: seq<Entry>, ours: seq<Entry>, theirs: seq<Entry>)
    ensures Distinct(KeysOf(Merged(base, ours, theirs)))
    ensures ToSet(KeysOf(Merged(base, ours, theirs))) == MapOf(ours).Keys + MapOf(theirs).Keys
  {
    var keys := MergedKeys(ours, theirs);
    MergedKeysAre(ours, theirs);
    assert forall k :: k in keys ==> k in ToSet(keys);
    ChosenKeys(base, ours, theirs, keys);
    assert KeysOf(Merged(base, ours, theirs)) == keys;
  }

  predicate AllValuesOk(m: map<string, string>) {
    forall k :: k in m ==> KeyOk(k) && ValueOk(m[k])
  }

  lemma {:induction false} MapIsOk(es: seq<Entry>)
    requires AllWellFormed(es)
    ensures AllValuesOk(MapOf(es))
    decreases |es|
  {
    hide KeyOk, ValueOk;
    if es != [] {
      assert WellFormed(es[|es| - 1]);
      MapIsOk(es[..|es| - 1]);
    }
  }

  lemma {:induction false} ChosenIsWellFormed(base: seq<Entry>, ours: seq<Entry>, theirs: seq<Entry>, keys: seq<string>)
    requires AllValuesOk(MapOf(base)) && AllValuesOk(MapOf(ours)) && AllValuesOk(MapOf(theirs))
    ensures AllWellFormed(Chosen(base, ours, theirs, keys))
    decreases |keys|
  {
    hide KeyOk, ValueOk, MapOf;
    if keys != [] {
      ChosenIsWellFormed(base, ours, theirs, keys[..|keys| - 1]);
      var key := keys[|keys| - 1];
      var value := ValueFor(base, ours, theirs, key);
      assert value.Some? ==> WellFormed(Entry(key, value.value));
    }
  }

  /**
    * The text of a merge of parsed files parses back to the merged entries: every key of either side once, with
    * the value chosen for it.
    */
  lemma MergeParsesBack(base: string, ours: string, theirs: string, key: string)
    ensures var m := Merged(Parsed(base), Parsed(ours), Parsed(theirs));
      && Parsed(Printed(m)) == m
      && Distinct(KeysOf(m))
      && Get(MapOf(m), key) == ValueFor(Parsed(base), Parsed(ours), Parsed(theirs), key)
  {
    var b, o, t := Parsed(base), Parsed(ours), Parsed(theirs);
    ParsedIsWellFormed(base);
    ParsedIsWellFormed(ours);
    ParsedIsWellFormed(theirs);
    MapIsOk(b);
    MapIsOk(o);
    MapIsOk(t);
    ChosenIsWellFormed(b, o, t, MergedKeys(o, t));
    ParsesBackIff(Merged(b, o, t));
    MergedKeysAreTheUnion(b, o, t);
    MergedMap(b, o, t, key);
    hide *;
  }

  /** Swapping the sides gives the same verdict and, without a conflict, the same map. */
  lemma SidesSwap(base: seq<Entry>, ours: seq<Entry>, theirs: seq<Entry>)
    ensures Conflicting(base, ours, theirs) <==> Conflicting(base, theirs, ours)
    ensures !Conflicting(base, ours, theirs) ==>
              MapOf(Merged(base, ours, theirs)) == MapOf(Merged(base, theirs, ours))
  {
    var b, o, t := MapOf(base), MapOf(ours), MapOf(theirs);
    assert forall k :: Conflict(Get(b, k), Get(o, k), Get(t, k)) <==> Conflict(Get(b, k), Get(t, k), Get(o, k));
    assert b.Keys + o.Keys + t.Keys == b.Keys + t.Keys + o.Keys;
    if !Conflicting(base, ours, theirs) {
      var m, w := MapOf(Merged(base, ours, theirs)), MapOf(Merged(base, theirs, ours));
      hide MapOf, Merged;
      forall k
        ensures Get(m, k) == Get(w, k)
      {
        MergedMap(base, ours, theirs, k);
        MergedMap(base, theirs, ours, k);
        assert !Conflict(Get(b, k), Get(o, k), Get(t, k)) by {
          if k !in b.Keys + o.Keys + t.Keys {
            assert Get(b, k).None? && Get(o, k).None? && Get(t, k).None?;
          }
        }
      }
      SameMap(m, w);
    }
  }

  lemma SameMap(m: map<string, string>, w: map<string, string>)
    requires forall k :: Get(m, k) == Get(w, k)
    ensures m == w
  {
    forall k
      ensures k in m <==> k in w
      ensures k in m ==> m[k] == w[k]
    {
      assert Get(m, k) == Get(w, k);
    }
  }

  /** The textbook choice: the side that changed wins, a deletion included. */
  function ThreeWay(base: Option<string>, ours: Option<string>, theirs: Option<string>): Option<string> {
    if ours == base then theirs else ours
  }

  /** One side deleted the key and the other left it as it was. */
  predicate DeletedOnOneSide(base: Option<string>, ours: Option<string>, theirs: Option<string>) {
    base.Some? && ((ours.None? && theirs == base) || (theirs.None? && ours == base))
  }

  /** Without a conflict a key has its textbook value exactly when no single side deleted it; else it stays. */
  lemma DeletionsAreIgnoredIff(base: seq<Entry>, ours: seq<Entry>, theirs: seq<Entry>, key: string)
    requires !Conflicting(base, ours, theirs)
    ensures var b, o, t := Get(MapOf(base), key), Get(MapOf(ours), key), Get(MapOf(theirs), key);
      var r := Get(MapOf(Merged(base, ours, theirs)), key);
      && (r == ThreeWay(b, o, t) <==> !DeletedOnOneSide(b, o, t))
      && (DeletedOnOneSide(b, o, t) ==> r == b)
  {
    MergedMap(base, ours, theirs, key);
    var b, o, t := MapOf(base), MapOf(ours), MapOf(theirs);
    hide MapOf, Merged;
    if key !in b.Keys + o.Keys + t.Keys {
      assert Get(b, key).None? && Get(o, key).None? && Get(t, key).None?;
    } else {
      assert !Conflict(Get(b, key), Get(o, key), Get(t, key));
    }
  }
}
