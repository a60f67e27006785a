/** The algebra of the merge of lists of rows for a fixed base. */
module CsvListLaws {
  import opened Wrappers
  import opened CsvRows
  import opened CsvMerge
  import opened CsvAlgebra
  import opened CsvLists

  // ---- lists with distinct first cells ----

  ghost predicate DistinctFirst(rows: seq<Row>) {
    forall i, j :: 0 <= i < j < |rows| ==> First(rows[i]) != First(rows[j])
  }

  ghost predicate FirstKeyed(m: Table) {
    forall k :: k in m ==> First(m[k]) == k
  }

  lemma {:induction false} NoEarlierOccurrence(rows: seq<Row>, n: nat, cell: string)
    requires n <= |rows| && forall i :: 0 <= i < n ==> First(rows[i]) != cell
    ensures Occurrences(rows, n, cell) == 0
  {
    if n > 0 {
      NoEarlierOccurrence(rows, n - 1, cell);
    }
  }

  lemma FirstsAreKeys(rows: seq<Row>)
    requires DistinctFirst(rows)
    ensures forall i :: 0 <= i < |rows| ==> KeyAt(rows, i) == First(rows[i])
    ensures DistinctKeys(rows)
  {
    forall i | 0 <= i < |rows|
      ensures KeyAt(rows, i) == First(rows[i])
    {
      NoEarlierOccurrence(rows, i, First(rows[i]));
    }
  }

  /** The table of a list with distinct first cells: each row under its first cell. */
  lemma KeyedByFirst(rows: seq<Row>)
    requires DistinctFirst(rows)
    ensures FirstKeyed(Keyed(rows))
    ensures forall i :: 0 <= i < |rows| ==> Get(Keyed(rows), First(rows[i])) == Some(rows[i])
    ensures forall k :: k in Keyed(rows) ==> Keyed(rows)[k] in rows
  {
    FirstsAreKeys(rows);
    hide KeyAt;
    KeyedDomain(rows, |rows|);
    forall i | 0 <= i < |rows|
      ensures Get(Keyed(rows), First(rows[i])) == Some(rows[i])
    {
      LookUpReturnsRow(rows, |rows|, i);
    }
    forall k | k in Keyed(rows)
      ensures Keyed(rows)[k] in rows && First(Keyed(rows)[k]) == k
    {
      var i :| 0 <= i < |rows| && KeyAt(rows, i) == k;
      assert Get(Keyed(rows), First(rows[i])) == Some(rows[i]);
    }
  }

  lemma JoinFirstKeyed(b: Table, o: Table, t: Table)
    requires FirstKeyed(b) && FirstKeyed(o) && FirstKeyed(t) && Join(b, o, t).Some?
    ensures FirstKeyed(Join(b, o, t).value)
  {
    hide CellsMerge, MergedCells, Join;
    var m := Join(b, o, t).value;
    forall k | k in m
      ensures First(m[k]) == k
    {
      GetJoin(b, o, t, k);
      if k in b && k in o && k in t {
        PresentRow(b[k], o[k], t[k]);
        assert Some(Cell(m[k], 0)) == MergeCell(Cell(b[k], 0), Cell(o[k], 0), Cell(t[k], 0));
      }
    }
  }

  /** A list of a table keyed by first cells is keyed to that table again. */
  lemma ListedByFirst(rows: seq<Row>, m: Table)
    requires Lists(rows, m) && FirstKeyed(m)
    ensures DistinctFirst(rows) && Keyed(rows) == m
  {
    hide KeyAt, Keyed;
    var keys :| ListsBy(rows, m, keys);
    assert forall i :: 0 <= i < |rows| ==> First(rows[i]) == keys[i];
    FirstsAreKeys(rows);
    KeyedAgain(rows, m, keys);
  }

  /** With distinct first cells, merging lists is joining their tables, and the merged first cells are distinct. */
  lemma MergeIsJoin(base: seq<Row>, ours: seq<Row>, theirs: seq<Row>)
    requires DistinctFirst(base) && DistinctFirst(ours) && DistinctFirst(theirs)
    ensures var r, j := MergeRows(base, ours, theirs), Join(Keyed(base), Keyed(ours), Keyed(theirs));
      && (r.Some? <==> j.Some?)
      && (r.Some? ==> DistinctFirst(r.value) && Keyed(r.value) == j.value)
  {
    hide DistinctFirst, FirstKeyed, Keyed, MergeRows, Join, Lists, KeptKeyOrder;
    MergeRowsLists(base, ours, theirs);
    KeyedByFirst(base);
    KeyedByFirst(ours);
    KeyedByFirst(theirs);
    if Join(Keyed(base), Keyed(ours), Keyed(theirs)).Some? {
      JoinFirstKeyed(Keyed(base), Keyed(ours), Keyed(theirs));
      ListedByFirst(MergeRows(base, ours, theirs).value, Join(Keyed(base), Keyed(ours), Keyed(theirs)).value);
    }
  }

  // ---- the algebra of lists ----

  ghost function MergeThen(base: seq<Row>, ours: Option<seq<Row>>, theirs: Option<seq<Row>>): Option<seq<Row>> {
    if ours.None? || theirs.None? then None else MergeRows(base, ours.value, theirs.value)
  }

  ghost predicate SameRows(l: Option<seq<Row>>, r: Option<seq<Row>>) {
    && (l.Some? <==> r.Some?)
    && (l.Some? ==> Keyed(l.value) == Keyed(r.value))
  }

  /** The same verdict, and lists of the same rows under the same keys. */
  ghost predicate ListAlike(l: Option<seq<Row>>, r: Option<seq<Row>>) {
    && (l.Some? <==> r.Some?)
    && (l.Some? ==> exists m :: Lists(l.value, m) && Lists(r.value, m))
  }

  /** Swapping the sides, for all tables. */
  lemma MergeCommutes(base: seq<Row>, ours: seq<Row>, theirs: seq<Row>)
    ensures ListAlike(MergeRows(base, ours, theirs), MergeRows(base, theirs, ours))
  {
    hide Keyed, MergeRows, Join, Lists, KeptKeyOrder;
    MergeRowsLists(base, ours, theirs);
    MergeRowsLists(base, theirs, ours);
    JoinCommutes(Keyed(base), Keyed(ours), Keyed(theirs));
  }

  ghost predicate BracketsAgree(base: seq<Row>, x: seq<Row>, y: seq<Row>, z: seq<Row>) {
    SameRows(MergeThen(base, MergeRows(base, x, y), Some(z)), MergeThen(base, Some(x), MergeRows(base, y, z)))
  }

  lemma BracketsAgreeIff(base: seq<Row>, x: seq<Row>, y: seq<Row>, z: seq<Row>)
    requires DistinctFirst(base) && DistinctFirst(x) && DistinctFirst(y) && DistinctFirst(z)
    ensures BracketsAgree(base, x, y, z) <==> AssociatesAt(Keyed(base), Keyed(x), Keyed(y), Keyed(z))
  {
    hide DistinctFirst, Keyed, MergeRows, Join;
    MergeIsJoin(base, x, y);
    MergeIsJoin(base, y, z);
    if MergeRows(base, x, y).Some? {
      MergeIsJoin(base, MergeRows(base, x, y).value, z);
    }
    if MergeRows(base, y, z).Some? {
      MergeIsJoin(base, x, MergeRows(base, y, z).value);
    }
  }

  ghost predicate NoListedRowEndsEmpty(rows: seq<Row>) {
    forall i :: 0 <= i < |rows| ==> !EndsEmpty(rows[i])
  }

  ghost predicate Associative(base: seq<Row>) {
    forall x, y, z :: DistinctFirst(x) && DistinctFirst(y) && DistinctFirst(z) ==> BracketsAgree(base, x, y, z)
  }

  /** The table of a list with distinct first cells holds exactly its rows. */
  lemma KeyedIs(rows: seq<Row>, m: Table)
    requires DistinctFirst(rows) && FirstKeyed(m)
    requires forall r: Row :: r in rows <==> Get(m, First(r)) == Some(r)
    ensures Keyed(rows) == m
  {
    hide Keyed, First;
    KeyedByFirst(rows);
    forall k
      ensures Get(Keyed(rows), k) == Get(m, k)
    {
      if k in m {
        var i :| 0 <= i < |rows| && rows[i] == m[k];
        assert Get(Keyed(rows), First(rows[i])) == Some(rows[i]);
      }
    }
    SameTable(Keyed(rows), m);
  }

  lemma InList(rows: seq<Row>, r: Row)
    requires DistinctFirst(rows)
    ensures r in rows <==> Get(Keyed(rows), First(r)) == Some(r)
  {
    hide Keyed, First;
    KeyedByFirst(rows);
    if r in rows {
      var i :| 0 <= i < |rows| && rows[i] == r;
      assert Get(Keyed(rows), First(rows[i])) == Some(rows[i]);
    }
  }

  function Removed(rows: seq<Row>, i: nat): seq<Row>
    requires i < |rows|
  {
    rows[..i] + rows[i + 1..]
  }

  lemma InRemoved(rows: seq<Row>, i: nat, r: Row)
    requires DistinctFirst(rows) && i < |rows|
    ensures DistinctFirst(Removed(rows, i))
    ensures r in Removed(rows, i) <==> r in rows && First(r) != First(rows[i])
  {
    hide First;
    if r in rows && First(r) != First(rows[i]) {
      var j :| 0 <= j < |rows| && rows[j] == r;
      assert Removed(rows, i)[if j < i then j else j - 1] == r;
    }
  }

  lemma KeyedWithout(rows: seq<Row>, i: nat)
    requires DistinctFirst(rows) && i < |rows|
    ensures DistinctFirst(Removed(rows, i)) && Keyed(Removed(rows, i)) == Keyed(rows) - {First(rows[i])}
  {
    hide Keyed, First, DistinctFirst, Removed;
    KeyedByFirst(rows);
    InRemoved(rows, i, []);
    forall r: Row
      ensures r in Removed(rows, i) <==> Get(Keyed(rows) - {First(rows[i])}, First(r)) == Some(r)
    {
      InRemoved(rows, i, r);
      InList(rows, r);
    }
    KeyedIs(Removed(rows, i), Keyed(rows) - {First(rows[i])});
  }

  lemma InReplaced(rows: seq<Row>, i: nat, row: Row, r: Row)
    requires DistinctFirst(rows) && i < |rows| && First(row) == First(rows[i])
    ensures DistinctFirst(rows[i := row])
    ensures r in rows[i := row] <==> r == row || (r in rows && First(r) != First(rows[i]))
  {
    hide First;
    assert rows[i := row][i] == row;
    if r in rows && First(r) != First(rows[i]) {
      var j :| 0 <= j < |rows| && rows[j] == r;
      assert rows[i := row][j] == r;
    }
  }

  lemma KeyedReplaced(rows: seq<Row>, i: nat, row: Row)
    requires DistinctFirst(rows) && i < |rows| && First(row) == First(rows[i])
    ensures DistinctFirst(rows[i := row]) && Keyed(rows[i := row]) == Keyed(rows)[First(row) := row]
  {
    hide Keyed, First, DistinctFirst;
    KeyedByFirst(rows);
    InReplaced(rows, i, row, []);
    forall r: Row
      ensures r in rows[i := row] <==> Get(Keyed(rows)[First(row) := row], First(r)) == Some(r)
    {
      InReplaced(rows, i, row, r);
      InList(rows, r);
    }
    KeyedIs(rows[i := row], Keyed(rows)[First(row) := row]);
  }

  /** With distinct first cells, the merge is associative exactly if no row of the base ends in an empty cell. */
  lemma MergeAssociatesIff(base: seq<Row>)
    requires DistinctFirst(base)
    ensures Associative(base) <==> NoListedRowEndsEmpty(base)
  {
    hide DistinctFirst, BracketsAgree, AssociatesAt, EndsEmpty, Keyed, First;
    KeyedByFirst(base);
    if NoListedRowEndsEmpty(base) {
      forall x, y, z | DistinctFirst(x) && DistinctFirst(y) && DistinctFirst(z)
        ensures BracketsAgree(base, x, y, z)
      {
        BracketsAgreeIff(base, x, y, z);
        JoinAssociates(Keyed(base), Keyed(x), Keyed(y), Keyed(z));
      }
    } else {
      var i :| 0 <= i < |base| && EndsEmpty(base[i]);
      EmptyEndBreaksLists(base, i);
    }
  }

  /** One side removes the row, one leaves it, one drops its empty last cell. */
  lemma EmptyEndBreaksLists(base: seq<Row>, i: nat)
    requires DistinctFirst(base) && i < |base| && EndsEmpty(base[i])
    ensures First(WithoutLast(base[i])) == First(base[i])
    ensures var x, z := Removed(base, i), base[i := WithoutLast(base[i])];
      DistinctFirst(x) && DistinctFirst(z) && !BracketsAgree(base, x, base, z)
  {
    FirstStays(base[i]);
    hide DistinctFirst, BracketsAgree, AssociatesAt, EndsEmpty, Keyed, First, Removed, WithoutLast;
    var x, z := Removed(base, i), base[i := WithoutLast(base[i])];
    KeyedByFirst(base);
    KeyedWithout(base, i);
    KeyedReplaced(base, i, WithoutLast(base[i]));
    BracketsAgreeIff(base, x, base, z);
    assert Get(Keyed(base), First(base[i])) == Some(base[i]);
    EmptyEndBreaks(Keyed(base), First(base[i]));
  }

  lemma FirstStays(row: Row)
    requires EndsEmpty(row)
    ensures First(WithoutLast(row)) == First(row)
  {
  }

  /**
   * With duplicate first cells: both bracketings agree if, in neither inner merge, a first cell lost rows on one side
   * and gained rows on the other.
   */
  lemma MergeAssociatesIfRekeyed(base: seq<Row>, x: seq<Row>, y: seq<Row>, z: seq<Row>)
    requires Unmarked(base) && Unmarked(x) && Unmarked(y) && Unmarked(z) && NoListedRowEndsEmpty(base)
    requires NeverLostAndGained(base, x, y) && NeverLostAndGained(base, y, z)
    ensures BracketsAlike(base, x, y, z)
  {
    hide Keyed, MergeRows, Join, Lists, KeptKeyOrder, Unmarked, NeverLostAndGained;
    hide NoListedRowEndsEmpty, NoRowEndsEmpty;
    MergeRowsLists(base, x, y);
    MergeRowsLists(base, y, z);
    if MergeRows(base, x, y).Some? {
      RekeyedIff(base, x, y);
      MergeRowsLists(base, MergeRows(base, x, y).value, z);
    }
    if MergeRows(base, y, z).Some? {
      RekeyedIff(base, y, z);
      MergeRowsLists(base, x, MergeRows(base, y, z).value);
    }
    KeyedRowsAreListed(base);
    JoinAssociates(Keyed(base), Keyed(x), Keyed(y), Keyed(z));
  }

  lemma KeyedRowsAreListed(rows: seq<Row>)
    requires NoListedRowEndsEmpty(rows)
    ensures NoRowEndsEmpty(Keyed(rows))
  {
    hide EndsEmpty;
    RowsUpTo(rows, |rows|);
  }

  lemma {:induction false} RowsUpTo(rows: seq<Row>, n: nat)
    requires n <= |rows|
    ensures forall k :: k in KeyedUpTo(rows, n) ==> KeyedUpTo(rows, n)[k] in rows
  {
    hide KeyAt;
    if n > 0 {
      RowsUpTo(rows, n - 1);
    }
  }

  ghost predicate BracketsAlike(base: seq<Row>, x: seq<Row>, y: seq<Row>, z: seq<Row>) {
    ListAlike(MergeThen(base, MergeRows(base, x, y), Some(z)), MergeThen(base, Some(x), MergeRows(base, y, z)))
  }

  ghost predicate AssociativeWithDuplicates(base: seq<Row>) {
    forall x, y, z :: Unmarked(x) && Unmarked(y) && Unmarked(z) ==> BracketsAlike(base, x, y, z)
  }

  ghost predicate DistinctOrUnmarked(base: seq<Row>, ours: seq<Row>) {
    || (DistinctFirst(base) && DistinctFirst(ours))
    || (Unmarked(base) && Unmarked(ours))
  }

  /** Merging a list with itself gives its rows back; so does merging it with the base unless a changed row shrank. */
  lemma MergeIdentities(base: seq<Row>, ours: seq<Row>)
    requires DistinctOrUnmarked(base, ours)
    ensures SameRows(MergeRows(base, ours, ours), Some(ours))
    ensures SameRows(MergeRows(base, ours, base), Some(ours)) <==> NoRowShrank(Keyed(base), Keyed(ours))
  {
    hide DistinctFirst, Unmarked, Keyed, MergeRows, Join, NoRowShrank, Lists, KeptKeyOrder, Total;
    JoinIdempotent(Keyed(base), Keyed(ours));
    BaseIsIdentity(Keyed(base), Keyed(ours));
    if DistinctFirst(base) && DistinctFirst(ours) {
      MergeIsJoin(base, ours, ours);
      MergeIsJoin(base, ours, base);
    } else {
      MergeRowsLists(base, ours, ours);
      MergeRowsLists(base, ours, base);
      RekeyedIff(base, ours, ours);
      RekeyedIff(base, ours, base);
    }
  }

  // ---- duplicate first cells ----

  lemma {:induction false} DistinctCount(keys: seq<string>, all: set<string>)
    requires forall i, j :: 0 <= i < j < |keys| ==> keys[i] != keys[j]
    requires forall k :: k in keys <==> k in all
    ensures |keys| == |all|
  {
    if keys == [] {
      assert all == {};
    } else {
      var init, last := keys[..|keys| - 1], keys[|keys| - 1];
      assert forall k :: k in keys <==> k in init || k == last;
      DistinctCount(init, all - {last});
      assert all == (all - {last}) + {last};
    }
  }

  /** A list of a table has as many rows as the table has keys. */
  lemma ListsCount(rows: seq<Row>, m: Table)
    requires Lists(rows, m)
    ensures |rows| == |m.Keys|
  {
    hide ListsBy;
    var keys :| ListsBy(rows, m, keys);
    ListsByCount(rows, m, keys);
  }

  lemma ListsByCount(rows: seq<Row>, m: Table, keys: seq<string>)
    requires ListsBy(rows, m, keys)
    ensures |rows| == |m.Keys|
  {
    DistinctCount(keys, m.Keys);
  }

  lemma ListsHoldValue(rows: seq<Row>, m: Table, i: nat) returns (k: string)
    requires Lists(rows, m) && i < |rows|
    ensures k in m && rows[i] == m[k]
  {
    var keys :| ListsBy(rows, m, keys);
    k := keys[i];
  }

  lemma ListsOfNone(rows: seq<Row>)
    requires Lists(rows, map[])
    ensures rows == []
  {
    ListsCount(rows, map[]);
    var empty: Table := map[];
    assert empty.Keys == {};
  }

  lemma ListsOfOne(rows: seq<Row>, k: string, row: Row)
    requires Lists(rows, map[k := row])
    ensures rows == [row]
  {
    ListsCount(rows, map[k := row]);
    assert map[k := row].Keys == {k};
    var k' := ListsHoldValue(rows, map[k := row], 0);
  }

  lemma KeyedOfOne(row: Row)
    ensures Keyed([row]) == map[First(row) := row] && Keyed([]) == map[]
  {
    assert Occurrences([row], 0, First(row)) == 0;
    assert KeyAt([row], 0) == First(row);
    assert KeyedUpTo([row], 1) == KeyedUpTo([row], 0)[First(row) := row];
  }

  lemma {:induction false} SameOccurrences(rows: seq<Row>, more: seq<Row>, n: nat, cell: string)
    requires n <= |rows|
    ensures Occurrences(rows + more, n, cell) == Occurrences(rows, n, cell)
  {
    if n > 0 {
      SameOccurrences(rows, more, n - 1, cell);
    }
  }

  lemma {:induction false} SameKeyedUpTo(rows: seq<Row>, more: seq<Row>, n: nat)
    requires n <= |rows|
    ensures KeyedUpTo(rows + more, n) == KeyedUpTo(rows, n)
  {
    if n > 0 {
      SameKeyedUpTo(rows, more, n - 1);
      SameOccurrences(rows, more, n - 1, First(rows[n - 1]));
    }
  }

  /** A row appended to a list gets a key of its own. */
  lemma KeyedOfAppended(rows: seq<Row>, row: Row)
    requires Unmarked(rows + [row])
    ensures var k := KeyAt(rows + [row], |rows|);
      k !in Keyed(rows) && Keyed(rows + [row]) == Keyed(rows)[k := row]
  {
    var more := rows + [row];
    KeysDistinctWithoutMarker(more);
    SameKeyedUpTo(rows, [row], |rows|);
    KeyedDomain(more, |rows|);
    hide KeyAt;
    assert Keyed(more) == KeyedUpTo(more, |rows|)[KeyAt(more, |rows|) := row];
  }

  /** Of a table with rows, merged against nothing: a row of it drops, and a row it does not have stays. */
  lemma MergesOfNothing(b: Table, k: string, twin: string, row: Row)
    requires k in b && b[k] == row && twin !in b
    ensures Join(b, map[], map[]) == Some(map[]) && Join(b, map[], map[k := row]) == Some(map[])
    ensures Join(b, map[], b[twin := row]) == Some(map[twin := row])
  {
    JoinIs(b, map[], map[], map[]);
    JoinIs(b, map[], map[k := row], map[]);
    JoinIs(b, map[], b[twin := row], map[twin := row]);
  }

  lemma FirstRowIsKeyed(base: seq<Row>)
    requires Unmarked(base) && base != []
    ensures Get(Keyed(base), First(base[0])) == Some(base[0])
  {
    KeysDistinctWithoutMarker(base);
    assert Occurrences(base, 0, First(base[0])) == 0;
    assert KeyAt(base, 0) == First(base[0]);
    LookUpReturnsRow(base, |base|, 0);
  }

  /** One side removed every row, the other also, or added a twin of the first row, or has that row alone. */
  lemma TwinMerges(base: seq<Row>)
    requires Unmarked(base) && base != []
    ensures MergeRows(base, [], []) == Some([]) && MergeRows(base, [], [base[0]]) == Some([])
    ensures MergeRows(base, [], base + [base[0]]) == Some([base[0]])
  {
    hide MergeRows, Lists, ListsBy, KeptKeyOrder, Keyed, Join, KeyAt, First;
    var row := base[0];
    KeyedOfOne(row);
    FirstRowIsKeyed(base);
    StaysUnmarked(base, row);
    KeyedOfAppended(base, row);
    var twin := KeyAt(base + [row], |base|);
    MergesOfNothing(Keyed(base), First(row), twin, row);
    MergeRowsLists(base, [], []);
    MergeRowsLists(base, [], [row]);
    MergeRowsLists(base, [], base + [row]);
    ListsOfNone(MergeRows(base, [], []).value);
    ListsOfNone(MergeRows(base, [], [row]).value);
    ListsOfOne(MergeRows(base, [], base + [row]).value, twin, row);
  }

  lemma StaysUnmarked(base: seq<Row>, row: Row)
    requires Unmarked(base) && row in base
    ensures Unmarked(base + [row])
  {
    hide First;
  }

  /** Merged rows are numbered anew: of a twin of the first row one bracketing keeps a row and the other nothing. */
  lemma TwinBreaksAssociativity(base: seq<Row>)
    requires Unmarked(base) && base != []
    ensures Unmarked(base + [base[0]]) && !BracketsAlike(base, [], [], base + [base[0]])
  {
    hide MergeRows, Lists, Unmarked;
    StaysUnmarked(base, base[0]);
    TwinMerges(base);
    forall m: Table
      ensures !(Lists([base[0]], m) && Lists([], m))
    {
      if Lists([base[0]], m) && Lists([], m) {
        ListsCount([base[0]], m);
        ListsCount([], m);
      }
    }
  }

  /** With duplicate first cells, the merge with a base is associative on all lists exactly if the base is empty. */
  lemma MergeAssociatesWithDuplicatesIff(base: seq<Row>)
    requires Unmarked(base)
    ensures AssociativeWithDuplicates(base) <==> base == []
  {
    hide Unmarked, BracketsAlike;
    if base == [] {
      forall x, y, z | Unmarked(x) && Unmarked(y) && Unmarked(z)
        ensures BracketsAlike(base, x, y, z)
      {
        NothingToLose(x, y);
        NothingToLose(y, z);
        MergeAssociatesIfRekeyed(base, x, y, z);
      }
    } else {
      TwinBreaksAssociativity(base);
      NoneIsUnmarked();
    }
  }

  lemma NothingToLose(ours: seq<Row>, theirs: seq<Row>)
    ensures NeverLostAndGained([], ours, theirs)
  {
  }

  lemma NoneIsUnmarked()
    ensures Unmarked([])
  {
  }
}
