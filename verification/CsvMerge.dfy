/** The keyed three-way merge of CSV tables: its headers, its cells and its list of rows. */
module CsvMerge {
  import opened Numbers
  import opened Wrappers
  import opened CsvRows

  // ---- headers ----

  /** How often `h` occurs among the first `n` headers. */
  function CountUpTo(headers: seq<string>, n: nat, h: string): nat
    requires n <= |headers|
  {
    if n == 0 then 0 else CountUpTo(headers, n - 1, h) + if headers[n - 1] == h then 1 else 0
  }

  function Count(headers: seq<string>, h: string): nat {
    CountUpTo(headers, |headers|, h)
  }

  function Recorded(counts: map<string, nat>, h: string): nat {
    if h in counts then counts[h] else 0
  }

  method CountHeaders(headers: seq<string>) returns (counts: map<string, nat>)
    ensures forall h :: Recorded(counts, h) == Count(headers, h)
  {
    counts := map[];
    for i := 0 to |headers|
      invariant forall h :: Recorded(counts, h) == CountUpTo(headers, i, h)
    {
      var h := headers[i];
      counts := counts[h := Recorded(counts, h) + 1];
    }
  }

  lemma {:induction false} CountOfConcat(a: seq<string>, b: seq<string>, n: nat, h: string)
    requires n <= |b|
    ensures CountUpTo(a + b, |a| + n, h) == Count(a, h) + CountUpTo(b, n, h)
  {
    if n == 0 {
      CountOfPrefix(a, b, |a|, h);
    } else {
      CountOfConcat(a, b, n - 1, h);
    }
  }

  lemma CountOfAppend(a: seq<string>, last: string)
    ensures forall h :: Count(a + [last], h) == Count(a, h) + if h == last then 1 else 0
  {
    forall h
      ensures Count(a + [last], h) == Count(a, h) + if h == last then 1 else 0
    {
      CountOfConcat(a, [last], 1, h);
    }
  }

  lemma {:induction false} CountOfPrefix(a: seq<string>, b: seq<string>, n: nat, h: string)
    requires n <= |a|
    ensures CountUpTo(a + b, n, h) == CountUpTo(a, n, h)
  {
    if n > 0 {
      CountOfPrefix(a, b, n - 1, h);
    }
  }

  lemma CountStep(headers: seq<string>, i: nat)
    requires i < |headers|
    ensures forall h ::
      CountUpTo(headers, i + 1, h) == CountUpTo(headers, i, h) + if h == headers[i] then 1 else 0
  {
  }

  lemma CountOfNone(headers: seq<string>)
    ensures forall h :: CountUpTo(headers, 0, h) == 0 && Count([], h) == 0
  {
  }

  lemma CountOfAll(base: seq<string>, ours: seq<string>, theirs: seq<string>)
    ensures var all := base + ours + theirs;
      forall h :: CountUpTo(all, |all|, h) == Count(base, h) + Count(ours, h) + Count(theirs, h)
  {
    forall h
      ensures Count(base + ours + theirs, h) == Count(base, h) + Count(ours, h) + Count(theirs, h)
    {
      CountOfConcat(base + ours, theirs, |theirs|, h);
      CountOfConcat(base, ours, |ours|, h);
    }
  }

  /** The headers kept from the first `n`: an occurrence stays while its number is below what one side needs. */
  function HeadersUpTo(all: seq<string>, n: nat, ours: seq<string>, theirs: seq<string>): seq<string>
    requires n <= |all|
  {
    if n == 0 then []
    else
      var h := all[n - 1];
      HeadersUpTo(all, n - 1, ours, theirs)
      + if CountUpTo(all, n - 1, h) < Max(Count(ours, h), Count(theirs, h)) then [h] else []
  }

  lemma HeadersStep(all: seq<string>, n: nat, ours: seq<string>, theirs: seq<string>)
    requires 0 < n <= |all|
    ensures HeadersUpTo(all, n, ours, theirs) ==
      if CountUpTo(all, n - 1, all[n - 1]) < Max(Count(ours, all[n - 1]), Count(theirs, all[n - 1]))
      then HeadersUpTo(all, n - 1, ours, theirs) + [all[n - 1]]
      else HeadersUpTo(all, n - 1, ours, theirs)
  {
    assert HeadersUpTo(all, n - 1, ours, theirs) + [] == HeadersUpTo(all, n - 1, ours, theirs);
  }

  lemma NoHeaders(all: seq<string>, ours: seq<string>, theirs: seq<string>)
    ensures HeadersUpTo(all, 0, ours, theirs) == []
  {
  }

  function MergedHeaders(base: seq<string>, ours: seq<string>, theirs: seq<string>): seq<string> {
    var all := base + ours + theirs;
    HeadersUpTo(all, |all|, ours, theirs)
  }

  lemma {:induction false} KeptCount(all: seq<string>, n: nat, ours: seq<string>, theirs: seq<string>)
    requires n <= |all|
    ensures forall h :: Count(HeadersUpTo(all, n, ours, theirs), h) ==
                        Min(CountUpTo(all, n, h), Max(Count(ours, h), Count(theirs, h)))
  {
    hide CountUpTo, Count, HeadersUpTo;
    if n == 0 {
      CountOfNone(all);
      NoHeaders(all, ours, theirs);
    } else {
      KeptCount(all, n - 1, ours, theirs);
      CountStep(all, n - 1);
      HeadersStep(all, n, ours, theirs);
      CountOfAppend(HeadersUpTo(all, n - 1, ours, theirs), all[n - 1]);
    }
  }

  /** Each header is kept exactly as often as on the side that has it more often, whatever the base has. */
  lemma MergedCount(base: seq<string>, ours: seq<string>, theirs: seq<string>)
    ensures forall h :: Count(MergedHeaders(base, ours, theirs), h) == Max(Count(ours, h), Count(theirs, h))
  {
    hide CountUpTo, Count, HeadersUpTo;
    KeptCount(base + ours + theirs, |base + ours + theirs|, ours, theirs);
    CountOfAll(base, ours, theirs);
  }

  /**
   * The merged headers: going through the headers of base, ours and theirs, an occurrence is kept while
   * its number is below its count in ours or in theirs.
   */
  method MergeHeaders(base: seq<string>, ours: seq<string>, theirs: seq<string>) returns (merged: seq<string>)
    ensures merged == MergedHeaders(base, ours, theirs)
    ensures forall h :: Count(merged, h) == Max(Count(ours, h), Count(theirs, h))
  {
    hide CountUpTo, Count, HeadersUpTo;
    var baseCount := CountHeaders(base);
    var oursCount := CountHeaders(ours);
    var theirsCount := CountHeaders(theirs);
    var all := base + ours + theirs;
    merged := [];
    var processed: map<string, nat> := map[];
    CountOfNone(all);
    NoHeaders(all, ours, theirs);
    for i := 0 to |all|
      invariant forall h :: Recorded(processed, h) == CountUpTo(all, i, h)
      invariant merged == HeadersUpTo(all, i, ours, theirs)
    {
      var h := all[i];
      var n := Recorded(processed, h);
      ghost var before := processed;
      processed := processed[h := n + 1];
      CountStep(all, i);
      HeadersStep(all, i + 1, ours, theirs);
      assert forall g :: Recorded(processed, g) == Recorded(before, g) + if g == h then 1 else 0;
      var inBase, inOurs := n < Recorded(baseCount, h), n < Recorded(oursCount, h);
      var inTheirs := n < Recorded(theirsCount, h);
      match (inBase, inOurs, inTheirs) {
        case (_, false, false) =>
        case _ =>
          merged := merged + [h];
      }
    }
    MergedCount(base, ours, theirs);
  }

  // ---- one cell, one row ----

  /** `None` is a conflict. */
  function MergeCell(b: string, o: string, t: string): Option<string> {
    if o == t then Some(o)
    else if o == b then Some(t)
    else if t == b then Some(o)
    else None
  }

  function Cell(row: Row, col: nat): string {
    if col < |row| then row[col] else ""
  }

  ghost predicate CellsMerge(b: Row, o: Row, t: Row) {
    forall col: nat :: MergeCell(Cell(b, col), Cell(o, col), Cell(t, col)).Some?
  }

  function Width(b: Row, o: Row, t: Row): nat {
    Max(|b|, Max(|o|, |t|))
  }

  /** The cells of a column are pairwise different. */
  predicate AllDiffer(b: Row, o: Row, t: Row, col: nat) {
    Cell(b, col) != Cell(o, col) && Cell(o, col) != Cell(t, col) && Cell(b, col) != Cell(t, col)
  }

  /** As wide as the widest; each cell is theirs where ours is that of the base, and ours elsewhere. */
  predicate TakesChanges(b: Row, o: Row, t: Row, m: Row) {
    && |m| == Max(|b|, Max(|o|, |t|))
    && forall col: nat | col < |m| :: m[col] == if Cell(o, col) == Cell(b, col) then Cell(t, col) else Cell(o, col)
  }

  /** Rows merge unless some column holds three different cells. */
  lemma CellsMergeIff(b: Row, o: Row, t: Row)
    ensures CellsMerge(b, o, t) <==> forall col: nat :: !AllDiffer(b, o, t, col)
    ensures CellsMerge(b, o, t) ==> TakesChanges(b, o, t, MergedCells(b, o, t))
  {
    hide Cell;
    forall col: nat
      ensures MergeCell(Cell(b, col), Cell(o, col), Cell(t, col)).Some? <==> !AllDiffer(b, o, t, col)
    {
    }
    if CellsMerge(b, o, t) {
      var m := MergedCells(b, o, t);
      forall col: nat | col < |m|
        ensures m[col] == if Cell(o, col) == Cell(b, col) then Cell(t, col) else Cell(o, col)
      {
        assert MergeCell(Cell(b, col), Cell(o, col), Cell(t, col)).Some?;
      }
    }
  }

  method MergeCells(b: Row, o: Row, t: Row) returns (merged: Option<Row>)
    ensures merged.None? <==> exists col: nat :: AllDiffer(b, o, t, col)
    ensures merged.Some? ==> TakesChanges(b, o, t, merged.value)
    ensures merged.Some? <==> CellsMerge(b, o, t)
    ensures merged.Some? ==> merged.value == MergedCells(b, o, t)
  {
    CellsMergeIff(b, o, t);
    var row := [];
    for col := 0 to Width(b, o, t)
      invariant |row| == col
      invariant forall c: nat :: c < col ==> Some(row[c]) == MergeCell(Cell(b, c), Cell(o, c), Cell(t, c))
    {
      var bv, ov, tv := Cell(b, col), Cell(o, col), Cell(t, col);
      if ov == tv {
        row := row + [ov];
      } else if ov == bv {
        row := row + [tv];
      } else if tv == bv {
        row := row + [ov];
      } else {
        assert MergeCell(Cell(b, col), Cell(o, col), Cell(t, col)).None?;
        return None;
      }
    }
    return Some(row);
  }

  ghost function MergedCells(b: Row, o: Row, t: Row): Row
    requires CellsMerge(b, o, t)
  {
    seq(Width(b, o, t), col requires 0 <= col < Width(b, o, t) =>
      MergeCell(Cell(b, col), Cell(o, col), Cell(t, col)).value)
  }

  /** What happens to one key: a row in the result, no row, or a conflict of the whole merge. */
  datatype RowMerge = Keep(row: Row) | Drop | Conflict

  ghost function MergeRow(b: Option<Row>, o: Option<Row>, t: Option<Row>): RowMerge {
    match (b, o, t)
    case (Some(b), Some(o), Some(t)) =>
      if o == t then Keep(o) else if CellsMerge(b, o, t) then Keep(MergedCells(b, o, t)) else Conflict
    case (Some(b), Some(o), None) => if o == b then Drop else Conflict
    case (Some(b), None, Some(t)) => if t == b then Drop else Conflict
    case (None, Some(o), Some(t)) => if o == t then Keep(o) else Conflict
    case (None, Some(o), None) => Keep(o)
    case (None, None, Some(t)) => Keep(t)
    case (_, None, None) => Drop
  }

  /** Rows under a key that all three have: equal sides stay, and else columns decide. */
  lemma PresentRows(b: Row, o: Row, t: Row)
    ensures var r := MergeRow(Some(b), Some(o), Some(t));
      && (r == Conflict <==> o != t && exists col: nat :: AllDiffer(b, o, t, col))
      && (r != Conflict ==> r.Keep? && (if o == t then r.row == o else TakesChanges(b, o, t, r.row)))
  {
    CellsMergeIff(b, o, t);
  }

  /** A row that a side removed is dropped if the other left or removed it, and is a conflict if it changed it. */
  lemma RemovedRows(b: Row, o: Row)
    ensures MergeRow(Some(b), Some(b), None) == Drop && MergeRow(Some(b), None, Some(b)) == Drop
    ensures MergeRow(Some(b), None, None) == Drop && MergeRow(None, None, None) == Drop
    ensures o != b ==> MergeRow(Some(b), Some(o), None) == Conflict && MergeRow(Some(b), None, Some(o)) == Conflict
  {
  }

  /** A row that the base has not is kept as a side added it, and is a conflict if the sides added different ones. */
  lemma AddedRows(o: Row, t: Row)
    ensures MergeRow(None, Some(o), None) == Keep(o) && MergeRow(None, None, Some(t)) == Keep(t)
    ensures MergeRow(None, Some(o), Some(t)) == if o == t then Keep(o) else Conflict
  {
  }

  type Table = map<string, Row>

  function Get(m: Table, k: string): Option<Row> {
    if k in m then Some(m[k]) else None
  }

  ghost function MergeKey(b: Table, o: Table, t: Table, k: string): RowMerge {
    MergeRow(Get(b, k), Get(o, k), Get(t, k))
  }

  // ---- the list of rows ----

  /** Keys in order of first appearance. */
  function Dedup(keys: seq<string>): (r: seq<string>)
    ensures forall k :: k in r <==> k in keys
    ensures forall i, j :: 0 <= i < j < |r| ==> r[i] != r[j]
  {
    if keys == [] then []
    else
      var init, k := Dedup(keys[..|keys| - 1]), keys[|keys| - 1];
      assert forall x :: x in keys <==> x in keys[..|keys| - 1] || x == k;
      if k in init then init else init + [k]
  }

  ghost function KeyOrder(base: seq<Row>, ours: seq<Row>, theirs: seq<Row>): seq<string> {
    Dedup(Keys(base) + Keys(ours) + Keys(theirs))
  }

  /** The rows kept for the given keys, or `None` if one of them conflicts. */
  ghost function MergeKeys(b: Table, o: Table, t: Table, keys: seq<string>): Option<seq<Row>> {
    if keys == [] then Some([])
    else
      match (MergeKeys(b, o, t, keys[..|keys| - 1]), MergeKey(b, o, t, keys[|keys| - 1]))
      case (None, _) => None
      case (_, Conflict) => None
      case (Some(rows), Drop) => Some(rows)
      case (Some(rows), Keep(row)) => Some(rows + [row])
  }

  ghost function MergeRows(base: seq<Row>, ours: seq<Row>, theirs: seq<Row>): Option<seq<Row>> {
    MergeKeys(Keyed(base), Keyed(ours), Keyed(theirs), KeyOrder(base, ours, theirs))
  }

  method MergeOneKey(b: Option<Row>, o: Option<Row>, t: Option<Row>) returns (r: RowMerge)
    ensures r == MergeRow(b, o, t)
  {
    hide CellsMerge, MergedCells;
    match (b, o, t) {
      case (Some(b), Some(o), Some(t)) =>
        if o == t {
          return Keep(o);
        }
        var cells := MergeCells(b, o, t);
        r := match cells case Some(row) => Keep(row) case None => Conflict;
      case (Some(b), Some(o), None) => r := if o == b then Drop else Conflict;
      case (Some(b), None, Some(t)) => r := if t == b then Drop else Conflict;
      case (_, None, None) => r := Drop;
      case (None, Some(o), None) => r := Keep(o);
      case (None, None, Some(t)) => r := Keep(t);
      case (None, Some(o), Some(t)) => r := if o == t then Keep(o) else Conflict;
    }
  }

  method OrderKeys(baseOrder: seq<string>, oursOrder: seq<string>, theirsOrder: seq<string>)
    returns (keyOrder: seq<string>)
    ensures keyOrder == Dedup(baseOrder + oursOrder + theirsOrder)
  {
    var all := baseOrder + oursOrder + theirsOrder;
    keyOrder := [];
    var seen: set<string> := {};
    for i := 0 to |all|
      invariant keyOrder == Dedup(all[..i])
      invariant forall k :: k in seen <==> k in all[..i]
    {
      assert all[..i + 1] == all[..i] + [all[i]];
      assert all[..i + 1][..i] == all[..i];
      if all[i] !in seen {
        seen := seen + {all[i]};
        keyOrder := keyOrder + [all[i]];
      }
    }
    assert all[..|all|] == all;
  }

  datatype Csv = Csv(headers: seq<string>, rows: seq<Row>)

  method MergeCsv(base: Csv, ours: Csv, theirs: Csv) returns (merged: Option<Csv>)
    ensures merged.Some? <==> MergeRows(base.rows, ours.rows, theirs.rows).Some?
    ensures merged.Some? ==> Some(merged.value.rows) == MergeRows(base.rows, ours.rows, theirs.rows)
    ensures merged.Some? ==> merged.value.headers == MergedHeaders(base.headers, ours.headers, theirs.headers)
  {
    hide MergeKey, Keyed, Keys, Dedup, Count, MergedHeaders;
    var headers := MergeHeaders(base.headers, ours.headers, theirs.headers);
    var baseOrder, baseMap := BuildKeyedRows(base.rows);
    var oursOrder, oursMap := BuildKeyedRows(ours.rows);
    var theirsOrder, theirsMap := BuildKeyedRows(theirs.rows);
    var keyOrder := OrderKeys(baseOrder, oursOrder, theirsOrder);
    var rows := [];
    for i := 0 to |keyOrder|
      invariant MergeKeys(baseMap, oursMap, theirsMap, keyOrder[..i]) == Some(rows)
    {
      var key := keyOrder[i];
      assert keyOrder[..i + 1][..i] == keyOrder[..i];
      KeyConflictStays(baseMap, oursMap, theirsMap, keyOrder, i);
      var r := MergeOneKey(Get(baseMap, key), Get(oursMap, key), Get(theirsMap, key));
      MergeKeyIs(baseMap, oursMap, theirsMap, key);
      match r {
        case Keep(row) => rows := rows + [row];
        case Drop =>
        case Conflict =>
          return None;
      }
    }
    assert keyOrder[..|keyOrder|] == keyOrder;
    return Some(Csv(headers, rows));
  }

  lemma MergeKeyIs(b: Table, o: Table, t: Table, k: string)
    ensures MergeKey(b, o, t, k) == MergeRow(Get(b, k), Get(o, k), Get(t, k))
  {
  }

  lemma {:induction false} KeyConflictStays(b: Table, o: Table, t: Table, keys: seq<string>, i: nat)
    requires i < |keys|
    ensures MergeKey(b, o, t, keys[i]) == Conflict ==> MergeKeys(b, o, t, keys).None?
  {
    hide MergeKey;
    if i < |keys| - 1 {
      KeyConflictStays(b, o, t, keys[..|keys| - 1], i);
    }
  }
}
