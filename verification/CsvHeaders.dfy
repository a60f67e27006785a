/** Merged headers and merged cells: headers are merged by name and cells by position. When do they agree? */
module CsvHeaders {
  import opened Numbers
  import opened Wrappers
  import opened Places
  import opened CsvRows
  import opened CsvMerge
  import opened CsvAlgebra
  import opened CsvLists
  import opened CsvListLaws

  predicate DistinctHeaders(headers: seq<string>) {
    forall i, j :: 0 <= i < j < |headers| ==> headers[i] != headers[j]
  }

  /** One list starts with the other. */
  predicate Comparable(a: seq<string>, b: seq<string>) {
    a <= b || b <= a
  }

  /** The cell a row has under a header. */
  function Named(headers: seq<string>, row: Row, h: string): string {
    Cell(row, Place(headers, h))
  }

  /** Every merged cell is the merge of the three cells under the header it stands under. */
  ghost predicate MergesByName(base: seq<string>, ours: seq<string>, theirs: seq<string>, merged: seq<string>) {
    forall b: Row, o: Row, t: Row, c: nat | |b| <= |base| && |o| <= |ours| && |t| <= |theirs| && c < |merged| ::
      MergeCell(Cell(b, c), Cell(o, c), Cell(t, c)) ==
      MergeCell(Named(base, b, merged[c]), Named(ours, o, merged[c]), Named(theirs, t, merged[c]))
  }

  ghost predicate LinedUp(base: seq<string>, ours: seq<string>, theirs: seq<string>, merged: seq<string>) {
    Comparable(base, merged) && Comparable(ours, merged) && Comparable(theirs, merged)
  }

  // ---- counting ----

  lemma {:induction false} CountMember(headers: seq<string>, n: nat, h: string)
    requires n <= |headers|
    ensures CountUpTo(headers, n, h) > 0 <==> h in headers[..n]
  {
    if n > 0 {
      CountMember(headers, n - 1, h);
      assert headers[..n] == headers[..n - 1] + [headers[n - 1]];
    }
  }

  lemma {:induction false} CountDistinct(headers: seq<string>, n: nat, h: string)
    requires n <= |headers|
    ensures DistinctHeaders(headers) ==> CountUpTo(headers, n, h) <= 1
  {
    if n > 0 {
      CountDistinct(headers, n - 1, h);
      CountMember(headers, n - 1, h);
    }
  }

  lemma {:induction false} CountGrows(headers: seq<string>, m: nat, n: nat, h: string)
    requires m <= n <= |headers|
    ensures CountUpTo(headers, m, h) <= CountUpTo(headers, n, h)
    decreases n
  {
    if m < n {
      CountGrows(headers, m, n - 1, h);
    }
  }

  /** No header of a merged list is there twice, and it holds the headers of both sides. */
  lemma {:induction false} KeptOnce(all: seq<string>, n: nat, ours: seq<string>, theirs: seq<string>)
    requires n <= |all| && DistinctHeaders(ours) && DistinctHeaders(theirs)
    ensures var m := HeadersUpTo(all, n, ours, theirs);
      && DistinctHeaders(m)
      && forall h :: h in m <==> h in all[..n] && (h in ours || h in theirs)
  {
    if n > 0 {
      var h := all[n - 1];
      KeptOnce(all, n - 1, ours, theirs);
      CountMember(all, n - 1, h);
      CountMember(ours, |ours|, h);
      CountMember(theirs, |theirs|, h);
      CountDistinct(ours, |ours|, h);
      CountDistinct(theirs, |theirs|, h);
      hide CountUpTo, HeadersUpTo;
      HeadersStep(all, n, ours, theirs);
      assert all[..n] == all[..n - 1] + [h];
      assert ours[..|ours|] == ours && theirs[..|theirs|] == theirs;
    }
  }

  lemma MergedOnce(base: seq<string>, ours: seq<string>, theirs: seq<string>)
    requires DistinctHeaders(ours) && DistinctHeaders(theirs)
    ensures DistinctHeaders(MergedHeaders(base, ours, theirs))
    ensures forall h :: h in MergedHeaders(base, ours, theirs) <==> h in ours || h in theirs
  {
    hide HeadersUpTo;
    var all := base + ours + theirs;
    KeptOnce(all, |all|, ours, theirs);
    assert all[..|all|] == all;
  }

  /** Without duplicates, headers of the base stand first, then those new in ours, then those new in theirs. */
  lemma HeadersInSourceOrder(base: seq<string>, ours: seq<string>, theirs: seq<string>)
    requires DistinctHeaders(ours) && DistinctHeaders(theirs)
    ensures InSourceOrder(base, ours, theirs, MergedHeaders(base, ours, theirs))
  {
    hide HeadersUpTo, InSourceOrder, ByPlace;
    var all := base + ours + theirs;
    HeadersByPlace(all, |all|, ours, theirs);
    assert all[..|all|] == all;
    SourceOrder(base, ours, theirs, MergedHeaders(base, ours, theirs));
  }

  lemma {:induction false} HeadersByPlace(all: seq<string>, n: nat, ours: seq<string>, theirs: seq<string>)
    requires n <= |all| && DistinctHeaders(ours) && DistinctHeaders(theirs)
    ensures ByPlace(all[..n], HeadersUpTo(all, n, ours, theirs))
  {
    hide ByPlace;
    if n == 0 {
      NothingByPlace(all[..0]);
    } else {
      hide HeadersUpTo, DistinctHeaders;
      var h := all[n - 1];
      HeadersByPlace(all, n - 1, ours, theirs);
      KeptOnce(all, n - 1, ours, theirs);
      AppendedIff(all, n, ours, theirs);
      AppendByPlace(all[..n - 1], h, HeadersUpTo(all, n - 1, ours, theirs));
      assert all[..n] == all[..n - 1] + [h];
    }
  }

  // ---- headers line up exactly when columns are only added or removed at the end ----

  /** The longer side starts with the shorter one, and it starts with the base or the base with it. */
  predicate ChangedAtEnd(base: seq<string>, ours: seq<string>, theirs: seq<string>) {
    Comparable(ours, theirs) && Comparable(base, Longer(ours, theirs))
  }

  function Longer(ours: seq<string>, theirs: seq<string>): seq<string> {
    if |ours| < |theirs| then theirs else ours
  }

  /** How many headers of the longer side are there after `n` of the headers of base, ours and theirs. */
  function Reached(b: nat, o: nat, longest: nat, n: nat): nat {
    Min(longest, if n <= b then n else if n <= b + o then Max(b, n - b) else Max(Max(b, o), n - b - o))
  }

  /** A header is appended when a side has it and it is not there yet. */
  lemma AppendedIff(all: seq<string>, n: nat, ours: seq<string>, theirs: seq<string>)
    requires 0 < n <= |all| && DistinctHeaders(ours) && DistinctHeaders(theirs)
    ensures var kept, h := HeadersUpTo(all, n - 1, ours, theirs), all[n - 1];
      HeadersUpTo(all, n, ours, theirs) ==
      if (h in ours || h in theirs) && h !in kept then kept + [h] else kept
  {
    hide CountUpTo, HeadersUpTo;
    var h := all[n - 1];
    KeptOnce(all, n - 1, ours, theirs);
    CountMember(all, n - 1, h);
    CountMember(ours, |ours|, h);
    CountMember(theirs, |theirs|, h);
    CountDistinct(ours, |ours|, h);
    CountDistinct(theirs, |theirs|, h);
    assert ours[..|ours|] == ours && theirs[..|theirs|] == theirs;
    HeadersStep(all, n, ours, theirs);
  }

  lemma {:induction false} ReachedAt(base: seq<string>, ours: seq<string>, theirs: seq<string>, n: nat)
    requires DistinctHeaders(base) && DistinctHeaders(ours) && DistinctHeaders(theirs)
    requires ChangedAtEnd(base, ours, theirs) && n <= |base + ours + theirs|
    ensures var all, l := base + ours + theirs, Longer(ours, theirs);
      HeadersUpTo(all, n, ours, theirs) == l[..Reached(|base|, |ours|, |l|, n)]
  {
    if n > 0 {
      hide *;
      ReachedAt(base, ours, theirs, n - 1);
      OneMoreHeader(base, ours, theirs, n);
      var all, l := base + ours + theirs, Longer(ours, theirs);
      var m, m' := Reached(|base|, |ours|, |l|, n - 1), Reached(|base|, |ours|, |l|, n);
      NextPrefix(all, n, ours, theirs, l, m, m');
    }
  }

  lemma NextPrefix(all: seq<string>, n: nat, ours: seq<string>, theirs: seq<string>, l: seq<string>, m: nat, m': nat)
    requires DistinctHeaders(ours) && DistinctHeaders(theirs)
    requires 0 < n <= |all| && m <= m' <= |l| && HeadersUpTo(all, n - 1, ours, theirs) == l[..m]
    requires m' == m ==> all[n - 1] in l[..m] || (all[n - 1] !in ours && all[n - 1] !in theirs)
    requires m' > m ==>
      m' == m + 1 && all[n - 1] == l[m] && (l[m] in ours || l[m] in theirs) && l[m] !in l[..m]
    ensures HeadersUpTo(all, n, ours, theirs) == l[..m']
  {
    hide HeadersUpTo, DistinctHeaders;
    AppendedIff(all, n, ours, theirs);
  }

  /** The next header is the next one of the longer side, an earlier one of it, or none of it. */
  lemma OneMoreHeader(base: seq<string>, ours: seq<string>, theirs: seq<string>, n: nat)
    requires DistinctHeaders(base) && DistinctHeaders(ours) && DistinctHeaders(theirs)
    requires ChangedAtEnd(base, ours, theirs) && 0 < n <= |base + ours + theirs|
    ensures var all, l := base + ours + theirs, Longer(ours, theirs);
      var m, m' := Reached(|base|, |ours|, |l|, n - 1), Reached(|base|, |ours|, |l|, n);
      && m <= m' <= |l|
      && (m' == m ==> all[n - 1] in l[..m] || (all[n - 1] !in ours && all[n - 1] !in theirs))
      && (m' > m ==> m' == m + 1 && all[n - 1] == l[m] && (l[m] in ours || l[m] in theirs) && l[m] !in l[..m])
  {
    var l := Longer(ours, theirs);
    var b, o := |base|, |ours|;
    var p := if n <= b then n - 1 else if n <= b + o then n - 1 - b else n - 1 - b - o;
    var part := if n <= b then base else if n <= b + o then ours else theirs;
    assert (base + ours + theirs)[n - 1] == part[p];
    if p < |l| {
      assert part[p] == l[p];
      NotTwice(l, p);
    }
  }

  lemma NotTwice(l: seq<string>, m: nat)
    requires DistinctHeaders(l) && m < |l|
    ensures l[m] !in l[..m]
  {
  }

  /** Headers that changed only at the end merge to the longer side's headers. */
  lemma MergedIsLonger(base: seq<string>, ours: seq<string>, theirs: seq<string>)
    requires DistinctHeaders(base) && DistinctHeaders(ours) && DistinctHeaders(theirs)
    requires ChangedAtEnd(base, ours, theirs)
    ensures MergedHeaders(base, ours, theirs) == Longer(ours, theirs)
  {
    hide HeadersUpTo, DistinctHeaders, ChangedAtEnd;
    ReachedAt(base, ours, theirs, |base + ours + theirs|);
  }

  /** The merged headers line up with all three lists exactly when columns were added or removed only at the end. */
  lemma LinedUpIff(base: seq<string>, ours: seq<string>, theirs: seq<string>)
    requires DistinctHeaders(base) && DistinctHeaders(ours) && DistinctHeaders(theirs)
    ensures LinedUp(base, ours, theirs, MergedHeaders(base, ours, theirs)) <==> ChangedAtEnd(base, ours, theirs)
  {
    hide MergedHeaders;
    var m := MergedHeaders(base, ours, theirs);
    MergedOnce(base, ours, theirs);
    if ChangedAtEnd(base, ours, theirs) {
      MergedIsLonger(base, ours, theirs);
    }
    if LinedUp(base, ours, theirs, m) {
      StartsMerged(ours, m);
      StartsMerged(theirs, m);
      NothingBehind(ours, theirs, m);
    }
  }

  lemma StartsMerged(side: seq<string>, m: seq<string>)
    requires Comparable(side, m) && DistinctHeaders(side) && forall h :: h in side ==> h in m
    ensures side <= m
  {
    if side != [] {
      var last := side[|side| - 1];
      assert last in m;
      var j :| 0 <= j < |m| && m[j] == last;
      assert j < |side| ==> side[j] == last;
    }
  }

  lemma NothingBehind(ours: seq<string>, theirs: seq<string>, m: seq<string>)
    requires ours <= m && theirs <= m && DistinctHeaders(m) && forall h :: h in m <==> h in ours || h in theirs
    ensures m == Longer(ours, theirs)
  {
    var l := Longer(ours, theirs);
    if m != [] {
      var last := m[|m| - 1];
      assert last in m;
      var j :| 0 <= j < |l| && l[j] == last;
      assert m[j] == last;
    }
  }

  // ---- cells stand under their headers exactly when headers line up ----

  lemma NamedIs(headers: seq<string>, row: Row, merged: seq<string>, c: nat)
    requires DistinctHeaders(headers) && DistinctHeaders(merged) && Comparable(headers, merged)
    requires |row| <= |headers| && c < |merged|
    ensures Named(headers, row, merged[c]) == Cell(row, c)
  {
    var p := Place(headers, merged[c]);
    if p < |headers| && p < |merged| {
      assert merged[p] == headers[p];
    }
  }

  lemma LinedUpMergesByName(base: seq<string>, ours: seq<string>, theirs: seq<string>, merged: seq<string>)
    requires DistinctHeaders(base) && DistinctHeaders(ours) && DistinctHeaders(theirs) && DistinctHeaders(merged)
    requires LinedUp(base, ours, theirs, merged)
    ensures MergesByName(base, ours, theirs, merged)
  {
    hide DistinctHeaders, Comparable, Named, MergeCell, Cell;
    forall b: Row, o: Row, t: Row, c: nat | |b| <= |base| && |o| <= |ours| && |t| <= |theirs| && c < |merged|
      ensures MergeCell(Cell(b, c), Cell(o, c), Cell(t, c)) ==
              MergeCell(Named(base, b, merged[c]), Named(ours, o, merged[c]), Named(theirs, t, merged[c]))
    {
      NamedIs(base, b, merged, c);
      NamedIs(ours, o, merged, c);
      NamedIs(theirs, t, merged, c);
    }
  }

  /** A row with one filled cell. */
  function Single(c: nat, cell: string): Row {
    seq(c + 1, i => if i == c then cell else "")
  }

  /** Where two lists part. */
  lemma FirstDifference(a: seq<string>, b: seq<string>) returns (c: nat)
    requires !Comparable(a, b)
    ensures c < |a| && c < |b| && a[c] != b[c]
  {
    c := 0;
    while c < |a| && c < |b| && a[c] == b[c]
      invariant c <= |a| && c <= |b| && a[..c] == b[..c]
    {
      c := c + 1;
    }
    assert a[..|a|] == a && b[..|b|] == b;
  }

  /** The merge by name for one choice of rows and column. */
  lemma ByNameAt(base: seq<string>, ours: seq<string>, theirs: seq<string>, merged: seq<string>,
                 b: Row, o: Row, t: Row, c: nat)
    requires MergesByName(base, ours, theirs, merged)
    requires |b| <= |base| && |o| <= |ours| && |t| <= |theirs| && c < |merged|
    ensures MergeCell(Cell(b, c), Cell(o, c), Cell(t, c)) ==
            MergeCell(Named(base, b, merged[c]), Named(ours, o, merged[c]), Named(theirs, t, merged[c]))
  {
  }

  lemma NamedElsewhere(headers: seq<string>, c: nat, cell: string, h: string)
    requires c < |headers| && headers[c] != h
    ensures |Single(c, cell)| <= |headers|
    ensures Cell(Single(c, cell), c) == cell && Named(headers, Single(c, cell), h) == ""
  {
  }

  lemma NamedEmpty(headers: seq<string>, h: string, c: nat)
    ensures Cell([], c) == "" && Named(headers, [], h) == ""
  {
  }

  lemma SidesLineUp(base: seq<string>, ours: seq<string>, theirs: seq<string>, merged: seq<string>)
    requires MergesByName(base, ours, theirs, merged)
    ensures Comparable(ours, merged) && Comparable(theirs, merged)
  {
    hide MergesByName, Comparable, Single, Cell, Named;
    if !Comparable(ours, merged) {
      var c := FirstDifference(ours, merged);
      NamedElsewhere(ours, c, "v", merged[c]);
      NamedEmpty(base, merged[c], c);
      NamedEmpty(theirs, merged[c], c);
      ByNameAt(base, ours, theirs, merged, [], Single(c, "v"), [], c);
    }
    if !Comparable(theirs, merged) {
      var c := FirstDifference(theirs, merged);
      NamedElsewhere(theirs, c, "v", merged[c]);
      NamedEmpty(base, merged[c], c);
      NamedEmpty(ours, merged[c], c);
      ByNameAt(base, ours, theirs, merged, [], [], Single(c, "v"), c);
    }
  }

  /** A base cell under another header than the column it is merged in. */
  lemma BaseLinesUp(base: seq<string>, ours: seq<string>, theirs: seq<string>, merged: seq<string>)
    requires MergesByName(base, ours, theirs, merged) && DistinctHeaders(merged)
    requires DistinctHeaders(ours) && DistinctHeaders(theirs)
    requires forall h :: h in merged ==> h in ours || h in theirs
    ensures Comparable(base, merged)
  {
    SidesLineUp(base, ours, theirs, merged);
    if !Comparable(base, merged) {
      var c := FirstDifference(base, merged);
      HasColumn(ours, theirs, merged, c);
      BaseMoves(base, ours, theirs, merged, c);
    }
  }

  lemma BaseMoves(base: seq<string>, ours: seq<string>, theirs: seq<string>, merged: seq<string>, c: nat)
    requires DistinctHeaders(ours) && DistinctHeaders(theirs) && DistinctHeaders(merged)
    requires Comparable(ours, merged) && Comparable(theirs, merged) && (c < |ours| || c < |theirs|)
    requires c < |base| && c < |merged| && base[c] != merged[c]
    ensures !MergesByName(base, ours, theirs, merged)
  {
    hide MergesByName, Comparable, Single, Cell, Named, DistinctHeaders;
    NamedElsewhere(base, c, "v", merged[c]);
    NamedEmpty(ours, merged[c], c);
    NamedEmpty(theirs, merged[c], c);
    SingleUnder(ours, merged, c);
    SingleUnder(theirs, merged, c);
    if MergesByName(base, ours, theirs, merged) {
      if c < |ours| {
        ByNameAt(base, ours, theirs, merged, Single(c, "v"), Single(c, "v"), [], c);
      } else {
        ByNameAt(base, ours, theirs, merged, Single(c, "v"), [], Single(c, "v"), c);
      }
    }
  }

  lemma SingleUnder(headers: seq<string>, merged: seq<string>, c: nat)
    requires DistinctHeaders(headers) && DistinctHeaders(merged) && Comparable(headers, merged) && c < |merged|
    ensures c < |headers| ==>
      |Single(c, "v")| <= |headers| && Cell(Single(c, "v"), c) == Named(headers, Single(c, "v"), merged[c]) == "v"
  {
    if c < |headers| {
      NamedIs(headers, Single(c, "v"), merged, c);
    }
  }

  lemma HasColumn(ours: seq<string>, theirs: seq<string>, merged: seq<string>, c: nat)
    requires Comparable(ours, merged) && Comparable(theirs, merged) && DistinctHeaders(merged) && c < |merged|
    requires forall h :: h in merged ==> h in ours || h in theirs
    ensures c < |ours| || c < |theirs|
  {
    assert merged[c] in merged;
  }

  /**
   * For tables without duplicate headers: every merged cell is the merge of the cells under the header it ends up
   * under, on all rows, exactly when columns were added or removed only at the end.
   */
  lemma MergesByNameIff(base: seq<string>, ours: seq<string>, theirs: seq<string>)
    requires DistinctHeaders(base) && DistinctHeaders(ours) && DistinctHeaders(theirs)
    ensures MergesByName(base, ours, theirs, MergedHeaders(base, ours, theirs)) <==> ChangedAtEnd(base, ours, theirs)
  {
    hide MergesByName, MergedHeaders, ChangedAtEnd, DistinctHeaders, Comparable;
    var m := MergedHeaders(base, ours, theirs);
    MergedOnce(base, ours, theirs);
    LinedUpIff(base, ours, theirs);
    if ChangedAtEnd(base, ours, theirs) {
      LinedUpMergesByName(base, ours, theirs, m);
    }
    if MergesByName(base, ours, theirs, m) {
      SidesLineUp(base, ours, theirs, m);
      BaseLinesUp(base, ours, theirs, m);
    }
  }

  /** Ours put a column in the middle: the merge is clean, and the cell of `b` ends up under `a`. */
  lemma ColumnInTheMiddle()
    ensures MergedHeaders(["id", "a"], ["id", "b", "a"], ["id", "a"]) == ["id", "a", "b"]
    ensures MergeRows([["1", "x"]], [["1", "y", "x"]], [["1", "x"]]) == Some([["1", "y", "x"]])
  {
    MiddleHeaders("id", "a", "b");
    MiddleRows();
  }

  lemma MiddleHeaders(i: string, a: string, b: string)
    requires i != a && i != b && a != b
    ensures MergedHeaders([i, a], [i, b, a], [i, a]) == [i, a, b]
  {
    var all := [i, a, i, b, a, i, a];
    assert [i, a] + [i, b, a] + [i, a] == all;
    FirstSteps(all, [i, b, a], [i, a], i, a, b);
    LastSteps(all, [i, b, a], [i, a], i, a, b);
  }

  lemma Skips(all: seq<string>, n: nat, ours: seq<string>, theirs: seq<string>, kept: seq<string>)
    requires 0 < n <= |all| && DistinctHeaders(ours) && DistinctHeaders(theirs)
    requires HeadersUpTo(all, n - 1, ours, theirs) == kept && all[n - 1] in kept
    ensures HeadersUpTo(all, n, ours, theirs) == kept
  {
    hide HeadersUpTo;
    AppendedIff(all, n, ours, theirs);
  }

  lemma Appends(all: seq<string>, n: nat, ours: seq<string>, theirs: seq<string>, kept: seq<string>)
    requires 0 < n <= |all| && DistinctHeaders(ours) && DistinctHeaders(theirs)
    requires HeadersUpTo(all, n - 1, ours, theirs) == kept && all[n - 1] !in kept && all[n - 1] in ours
    ensures HeadersUpTo(all, n, ours, theirs) == kept + [all[n - 1]]
  {
    hide HeadersUpTo;
    AppendedIff(all, n, ours, theirs);
  }

  lemma FirstSteps(all: seq<string>, ours: seq<string>, theirs: seq<string>, i: string, a: string, b: string)
    requires i != a && i != b && a != b && all == [i, a, i, b, a, i, a] && ours == [i, b, a] && theirs == [i, a]
    ensures HeadersUpTo(all, 4, ours, theirs) == [i, a, b]
  {
    NoHeaders(all, ours, theirs);
    hide HeadersUpTo;
    Appends(all, 1, ours, theirs, []);
    Appends(all, 2, ours, theirs, [i]);
    Skips(all, 3, ours, theirs, [i, a]);
    Appends(all, 4, ours, theirs, [i, a]);
  }

  lemma LastSteps(all: seq<string>, ours: seq<string>, theirs: seq<string>, i: string, a: string, b: string)
    requires i != a && i != b && a != b && all == [i, a, i, b, a, i, a] && ours == [i, b, a] && theirs == [i, a]
    requires HeadersUpTo(all, 4, ours, theirs) == [i, a, b]
    ensures HeadersUpTo(all, 7, ours, theirs) == [i, a, b]
  {
    hide HeadersUpTo;
    Skips(all, 5, ours, theirs, [i, a, b]);
    Skips(all, 6, ours, theirs, [i, a, b]);
    Skips(all, 7, ours, theirs, [i, a, b]);
  }

  lemma MiddleRows()
    ensures MergeRows([["1", "x"]], [["1", "y", "x"]], [["1", "x"]]) == Some([["1", "y", "x"]])
  {
    hide MergeRows, Lists, ListsBy, KeptKeyOrder, Keyed, NoRowShrank;
    var b, o := ["1", "x"], ["1", "y", "x"];
    KeyedOfOne(b);
    KeyedOfOne(o);
    MergeRowsLists([b], [o], [b]);
    BaseIsIdentity(map["1" := b], map["1" := o]);
    KeyedShrank();
    ListsOfOne(MergeRows([b], [o], [b]).value, "1", o);
  }

  lemma KeyedShrank()
    ensures NoRowShrank(map["1" := ["1", "x"]], map["1" := ["1", "y", "x"]])
  {
  }

  // ---- rows as wide as the headers ----

  /** The row kept under this key, if any, has so many cells. */
  predicate FitsAt(b: Table, o: Table, t: Table, n: nat, k: string) {
    if k in b then
      k in o && k in t ==> (if o[k] == t[k] then |o[k]| else Width(b[k], o[k], t[k])) == n
    else
      (k in o ==> |o[k]| == n) && (k in t ==> |t[k]| == n)
  }

  lemma KeptRowFitsIff(b: Table, o: Table, t: Table, n: nat, k: string)
    requires MergeKey(b, o, t, k) != Conflict
    ensures FitsAt(b, o, t, n, k) <==> (MergeKey(b, o, t, k).Keep? ==> |MergeKey(b, o, t, k).row| == n)
  {
    hide CellsMerge, MergedCells;
    if k in b && k in o && k in t {
      PresentRow(b[k], o[k], t[k]);
    }
  }

  /**
   * All merged rows have `n` cells, as the writer demands for the number of headers, exactly when each row that one
   * side added has, and each row that both kept is so wide, or padded to be.
   */
  lemma MergedRowsFitIff(base: seq<Row>, ours: seq<Row>, theirs: seq<Row>, n: nat)
    requires MergeRows(base, ours, theirs).Some?
    ensures (forall row :: row in MergeRows(base, ours, theirs).value ==> |row| == n) <==>
            forall k :: FitsAt(Keyed(base), Keyed(ours), Keyed(theirs), n, k)
  {
    hide MergeRows, Lists, ListsBy, KeptKeyOrder, Keyed, FitsAt, MergeKey, Join;
    MergeRowsLists(base, ours, theirs);
    var b, o, t := Keyed(base), Keyed(ours), Keyed(theirs);
    var rows := MergeRows(base, ours, theirs).value;
    RowsOfList(rows, Join(b, o, t).value);
    forall k
      ensures FitsAt(b, o, t, n, k) <==>
              (Get(Join(b, o, t).value, k).Some? ==> |Get(Join(b, o, t).value, k).value| == n)
    {
      NoConflictAt(b, o, t, k);
      KeptRowFitsIff(b, o, t, n, k);
      GetJoin(b, o, t, k);
    }
    if forall row :: row in rows ==> |row| == n {
      forall k
        ensures FitsAt(b, o, t, n, k)
      {
        if Get(Join(b, o, t).value, k).Some? {
          assert Join(b, o, t).value[k] in rows;
        }
      }
    }
    if forall k :: FitsAt(b, o, t, n, k) {
      forall row | row in rows
        ensures |row| == n
      {
        var k :| k in Join(b, o, t).value && Join(b, o, t).value[k] == row;
        assert FitsAt(b, o, t, n, k);
      }
    }
  }

  lemma NoConflictAt(b: Table, o: Table, t: Table, k: string)
    requires Join(b, o, t).Some?
    ensures MergeKey(b, o, t, k) != Conflict
  {
  }

  lemma RowsOfList(rows: seq<Row>, m: Table)
    requires Lists(rows, m)
    ensures forall k :: k in m ==> m[k] in rows
    ensures forall row :: row in rows ==> exists k :: k in m && m[k] == row
  {
    hide ListsBy;
    var keys :| ListsBy(rows, m, keys);
    forall k | k in m
      ensures m[k] in rows
    {
      ValueIsListed(rows, m, keys, k);
    }
    forall row | row in rows
      ensures exists k :: k in m && m[k] == row
    {
      var i :| 0 <= i < |rows| && rows[i] == row;
      var k := ListsHoldValue(rows, m, i);
    }
  }

  lemma ValueIsListed(rows: seq<Row>, m: Table, keys: seq<string>, k: string)
    requires ListsBy(rows, m, keys) && k in m
    ensures m[k] in rows
  {
    var i :| 0 <= i < |keys| && keys[i] == k;
    assert rows[i] == m[k];
  }

  /** A row that theirs added and that is shorter than the merged headers: the merge is clean and cannot be written. */
  lemma NewRowIsTooShort(base: seq<Row>, ours: seq<Row>, theirs: seq<Row>, n: nat, k: string)
    requires MergeRows(base, ours, theirs).Some?
    requires k in Keyed(theirs) && k !in Keyed(base) && |Keyed(theirs)[k]| < n
    ensures exists row :: row in MergeRows(base, ours, theirs).value && |row| != n
  {
    hide MergeRows, Keyed;
    MergedRowsFitIff(base, ours, theirs, n);
    assert !FitsAt(Keyed(base), Keyed(ours), Keyed(theirs), n, k);
  }
}
