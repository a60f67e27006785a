/**
 * The algebra of the keyed merge for a fixed base: a partial operation on tables, taken as maps from key to
 * row, with a conflict as the undefined result. It commutes and is idempotent; when it is associative, and
 * when the base is its identity, depends on trailing empty cells.
 */
module CsvAlgebra {
  import opened Numbers
  import opened Wrappers
  import opened CsvRows
  import opened CsvMerge

  /** The merge of two tables against a base, or `None` if some key conflicts. */
  ghost function Join(b: Table, o: Table, t: Table): Option<Table> {
    if exists k :: MergeKey(b, o, t, k) == Conflict then None
    else Some(map k | k in b.Keys + o.Keys + t.Keys && MergeKey(b, o, t, k).Keep? :: MergeKey(b, o, t, k).row)
  }

  ghost function JoinThen(b: Table, o: Option<Table>, t: Option<Table>): Option<Table> {
    if o.None? || t.None? then None else Join(b, o.value, t.value)
  }

  // ---- rows ----

  /** Swapping the sides changes nothing, for rows of any width. */
  lemma RowCommutes(b: Option<Row>, o: Option<Row>, t: Option<Row>)
    ensures MergeRow(b, o, t) == MergeRow(b, t, o)
  {
    if b.Some? && o.Some? && t.Some? && o != t {
      var b, o, t := b.value, o.value, t.value;
      forall col: nat
        ensures MergeCell(Cell(b, col), Cell(o, col), Cell(t, col)) ==
                MergeCell(Cell(b, col), Cell(t, col), Cell(o, col))
      {
      }
      assert CellsMerge(b, o, t) <==> CellsMerge(b, t, o);
      if CellsMerge(b, o, t) {
        assert MergedCells(b, o, t) == MergedCells(b, t, o);
      }
    }
  }

  /** One key's merge of present rows, cell by cell, also where it takes a shortcut for equal rows. */
  lemma PresentRow(b: Row, o: Row, t: Row)
    ensures MergeRow(Some(b), Some(o), Some(t)).Keep? <==> CellsMerge(b, o, t)
    ensures MergeRow(Some(b), Some(o), Some(t)) == Conflict <==> !CellsMerge(b, o, t)
    ensures CellsMerge(b, o, t) ==>
      var m := MergeRow(Some(b), Some(o), Some(t)).row;
      && |m| == (if o == t then |o| else Width(b, o, t))
      && forall c: nat :: Some(Cell(m, c)) == MergeCell(Cell(b, c), Cell(o, c), Cell(t, c))
  {
    if o != t && CellsMerge(b, o, t) {
      var m := MergedCells(b, o, t);
      forall c: nat
        ensures Some(Cell(m, c)) == MergeCell(Cell(b, c), Cell(o, c), Cell(t, c))
      {
        assert MergeCell(Cell(b, c), Cell(o, c), Cell(t, c)).Some?;
      }
    }
  }

  lemma SameCells(m: Row, n: Row)
    requires |m| == |n| && forall c: nat :: Cell(m, c) == Cell(n, c)
    ensures m == n
  {
    forall c | 0 <= c < |m|
      ensures m[c] == n[c]
    {
      assert Cell(m, c) == Cell(n, c);
    }
  }

  ghost function AsOption(r: RowMerge): Option<Row> {
    if r.Keep? then Some(r.row) else None
  }

  ghost function LeftRow(b: Option<Row>, x: Option<Row>, y: Option<Row>, z: Option<Row>): RowMerge {
    var xy := MergeRow(b, x, y);
    if xy == Conflict then Conflict else MergeRow(b, AsOption(xy), z)
  }

  ghost function RightRow(b: Option<Row>, x: Option<Row>, y: Option<Row>, z: Option<Row>): RowMerge {
    var yz := MergeRow(b, y, z);
    if yz == Conflict then Conflict else MergeRow(b, x, AsOption(yz))
  }

  /** The cell that merging `z` into the merge of `x` and `y` gives. */
  function LeftCell(b: string, x: string, y: string, z: string): Option<string> {
    match MergeCell(b, x, y)
    case None => None
    case Some(xy) => MergeCell(b, xy, z)
  }

  ghost function LeftCellAt(b: Row, x: Row, y: Row, z: Row, c: nat): Option<string> {
    LeftCell(Cell(b, c), Cell(x, c), Cell(y, c), Cell(z, c))
  }

  /** One bracketing of three present rows, cell by cell, with the width it ends up with. */
  lemma LeftIs(b: Row, x: Row, y: Row, z: Row)
    ensures var l := LeftRow(Some(b), Some(x), Some(y), Some(z));
      && l != Drop
      && (l.Keep? <==> forall c: nat :: LeftCellAt(b, x, y, z, c).Some?)
      && (l.Keep? ==>
            && |l.row| == (if x == y == z then |x| else Max(|x|, Width(b, y, z)))
            && forall c: nat :: Some(Cell(l.row, c)) == LeftCellAt(b, x, y, z, c))
  {
    PresentRow(b, x, y);
    if CellsMerge(b, x, y) {
      var xy := MergeRow(Some(b), Some(x), Some(y)).row;
      PresentRow(b, xy, z);
      hide MergeRow, MergeCell, MergedCells;
      assert forall c: nat :: LeftCellAt(b, x, y, z, c) == MergeCell(Cell(b, c), Cell(xy, c), Cell(z, c)) by {
        hide CellsMerge;
        assert forall c: nat :: Some(Cell(xy, c)) == MergeCell(Cell(b, c), Cell(x, c), Cell(y, c));
      }
    } else {
      var c: nat :| MergeCell(Cell(b, c), Cell(x, c), Cell(y, c)).None?;
      assert LeftCellAt(b, x, y, z, c).None?;
    }
  }

  lemma CellBrackets(b: string, x: string, y: string, z: string)
    ensures LeftCell(b, x, y, z) == LeftCell(b, z, y, x)
  {
  }

  /** Three present rows: no condition is needed. */
  lemma PresentAssociates(b: Row, x: Row, y: Row, z: Row)
    ensures LeftRow(Some(b), Some(x), Some(y), Some(z)) == RightRow(Some(b), Some(x), Some(y), Some(z))
  {
    hide MergeRow, MergeCell, LeftRow, RightRow, LeftCell;
    RightIsLeft(b, x, y, z);
    LeftIs(b, x, y, z);
    LeftIs(b, z, y, x);
    var l, r := LeftRow(Some(b), Some(x), Some(y), Some(z)), LeftRow(Some(b), Some(z), Some(y), Some(x));
    forall c: nat
      ensures LeftCellAt(b, x, y, z, c) == LeftCellAt(b, z, y, x, c)
    {
      CellBrackets(Cell(b, c), Cell(x, c), Cell(y, c), Cell(z, c));
    }
    if l.Keep? {
      forall c: nat
        ensures Cell(l.row, c) == Cell(r.row, c)
      {
        assert Some(Cell(l.row, c)) == LeftCellAt(b, x, y, z, c) == Some(Cell(r.row, c));
      }
      SameCells(l.row, r.row);
    }
  }

  lemma RightIsLeft(b: Row, x: Row, y: Row, z: Row)
    ensures RightRow(Some(b), Some(x), Some(y), Some(z)) == LeftRow(Some(b), Some(z), Some(y), Some(x))
  {
    hide MergeRow;
    RowCommutes(Some(b), Some(y), Some(z));
    RowCommutes(Some(b), Some(x), AsOption(MergeRow(Some(b), Some(y), Some(z))));
  }

  /** The last cell is empty, so leaving it away changes no cell. */
  predicate EndsEmpty(row: Row) {
    row != [] && row[|row| - 1] == ""
  }

  lemma PaddedToBase(b: Row, y: Row)
    requires !EndsEmpty(b) && |y| <= |b| && forall c: nat :: Cell(y, c) == Cell(b, c)
    ensures y == b
  {
    assert b != [] ==> Cell(y, |b| - 1) == Cell(b, |b| - 1) != "";
    SameCells(y, b);
  }

  /** Two rows merge to a base row that does not end in an empty cell only if neither changed it. */
  lemma MergesToBase(b: Row, y: Row, z: Row)
    requires !EndsEmpty(b)
    ensures MergeRow(Some(b), Some(y), Some(z)) == Keep(b) <==> y == b && z == b
  {
    PresentRow(b, y, z);
    if MergeRow(Some(b), Some(y), Some(z)) == Keep(b) && y != z {
      hide MergeRow, EndsEmpty;
      forall c: nat
        ensures Cell(y, c) == Cell(b, c) && Cell(z, c) == Cell(b, c)
      {
        assert Some(Cell(b, c)) == MergeCell(Cell(b, c), Cell(y, c), Cell(z, c));
      }
      PaddedToBase(b, y);
      PaddedToBase(b, z);
    }
  }

  /** One key's merge is associative, on rows of any widths, unless the base row ends in an empty cell. */
  lemma RowAssociates(b: Option<Row>, x: Option<Row>, y: Option<Row>, z: Option<Row>)
    requires b.Some? ==> !EndsEmpty(b.value)
    ensures LeftRow(b, x, y, z) == RightRow(b, x, y, z)
  {
    hide CellsMerge, MergedCells, EndsEmpty;
    if b.Some? {
      if x.Some? && y.Some? && z.Some? {
        PresentAssociates(b.value, x.value, y.value, z.value);
      } else {
        OneMissing(b.value, x, y, z);
      }
    }
  }

  lemma OneMissing(b: Row, x: Option<Row>, y: Option<Row>, z: Option<Row>)
    requires !EndsEmpty(b) && (x.None? || y.None? || z.None?)
    ensures LeftRow(Some(b), x, y, z) == RightRow(Some(b), x, y, z)
  {
    hide CellsMerge, MergedCells;
    if x.Some? && y.Some? {
      MergesToBase(b, x.value, y.value);
      PresentRow(b, x.value, y.value);
    }
    if y.Some? && z.Some? {
      MergesToBase(b, y.value, z.value);
      PresentRow(b, y.value, z.value);
    }
  }

  // ---- tables ----

  predicate NoRowEndsEmpty(m: Table) {
    forall k :: k in m ==> !EndsEmpty(m[k])
  }

  lemma UnknownKeyDrops(b: Table, o: Table, t: Table, k: string)
    requires k !in b.Keys + o.Keys + t.Keys
    ensures MergeKey(b, o, t, k) == Drop
  {
  }

  /** Looking a key up in the joined table. */
  lemma GetJoin(b: Table, o: Table, t: Table, k: string)
    requires Join(b, o, t).Some?
    ensures Get(Join(b, o, t).value, k) == AsOption(MergeKey(b, o, t, k))
  {
    hide MergeKey;
    if k !in b.Keys + o.Keys + t.Keys {
      UnknownKeyDrops(b, o, t, k);
    }
  }

  lemma SameTable(m: Table, n: Table)
    requires forall k :: Get(m, k) == Get(n, k)
    ensures m == n
  {
    forall k
      ensures k in m <==> k in n
      ensures k in m ==> m[k] == n[k]
    {
      assert Get(m, k) == Get(n, k);
    }
    assert m.Keys == n.Keys;
  }

  /** Two rows under a key do not go together: added differently, changed and removed, or changed differently. */
  ghost predicate Clash(b: Table, o: Table, t: Table, k: string) {
    if k in b then
      || (k in o && k in t && o[k] != t[k] && exists col: nat :: AllDiffer(b[k], o[k], t[k], col))
      || (k in o && k !in t && o[k] != b[k])
      || (k !in o && k in t && t[k] != b[k])
    else
      k in o && k in t && o[k] != t[k]
  }

  /** A merge conflicts exactly when the rows under some key clash. */
  lemma JoinConflictsIff(b: Table, o: Table, t: Table)
    ensures Join(b, o, t).None? <==> exists k :: Clash(b, o, t, k)
  {
    hide CellsMerge, MergedCells, AllDiffer;
    forall k
      ensures MergeKey(b, o, t, k) == Conflict <==> Clash(b, o, t, k)
    {
      if k in b && k in o && k in t {
        PresentRows(b[k], o[k], t[k]);
      }
    }
    hide MergeKey, Clash;
  }

  lemma JoinCommutes(b: Table, o: Table, t: Table)
    ensures Join(b, o, t) == Join(b, t, o)
  {
    forall k
      ensures MergeKey(b, o, t, k) == MergeKey(b, t, o, k)
    {
      RowCommutes(Get(b, k), Get(o, k), Get(t, k));
    }
    hide MergeKey;
    if Join(b, o, t).Some? {
      forall k
        ensures Get(Join(b, o, t).value, k) == Get(Join(b, t, o).value, k)
      {
        GetJoin(b, o, t, k);
        GetJoin(b, t, o, k);
      }
      SameTable(Join(b, o, t).value, Join(b, t, o).value);
    }
  }

  /** Merging a table with itself gives it back, whatever the base and the widths. */
  lemma JoinIdempotent(b: Table, o: Table)
    ensures Join(b, o, o) == Some(o)
  {
    forall k
      ensures MergeKey(b, o, o, k) != Conflict && AsOption(MergeKey(b, o, o, k)) == Get(o, k)
    {
    }
    hide MergeKey;
    forall k
      ensures Get(Join(b, o, o).value, k) == Get(o, k)
    {
      GetJoin(b, o, o, k);
    }
    SameTable(Join(b, o, o).value, o);
  }

  /** A row that changed is not shortened by merging it with the base row. */
  ghost predicate NoRowShrank(b: Table, o: Table) {
    forall k :: k in b && k in o && o[k] != b[k] ==> |o[k]| >= |b[k]|
  }

  lemma RowBaseIdentity(b: Row, o: Row)
    ensures MergeRow(Some(b), Some(o), Some(b)).Keep?
    ensures MergeRow(Some(b), Some(o), Some(b)) == Keep(o) <==> o == b || |o| >= |b|
  {
    assert CellsMerge(b, o, b);
    var m := MergedCells(b, o, b);
    assert |m| == Max(|b|, |o|);
    assert forall c :: 0 <= c < |m| ==> m[c] == Cell(o, c);
    if |o| >= |b| {
      assert m == o;
    }
  }

  /** The base is the identity exactly when no changed row is shorter than the base row it replaces. */
  lemma BaseIsIdentity(b: Table, o: Table)
    ensures Join(b, o, b).Some?
    ensures Join(b, o, b) == Some(o) <==> NoRowShrank(b, o)
  {
    forall k
      ensures MergeKey(b, o, b, k) != Conflict
      ensures AsOption(MergeKey(b, o, b, k)) == Get(o, k) <==>
              (k in b && k in o && o[k] != b[k] ==> |o[k]| >= |b[k]|)
    {
      if k in b && k in o {
        RowBaseIdentity(b[k], o[k]);
      }
    }
    hide MergeKey;
    forall k
      ensures Get(Join(b, o, b).value, k) == AsOption(MergeKey(b, o, b, k))
    {
      GetJoin(b, o, b, k);
    }
    if NoRowShrank(b, o) {
      SameTable(Join(b, o, b).value, o);
    }
  }

  /** One bracketing conflicts exactly when, at some key, the rows bracketed that way do. */
  lemma LeftConflictIff(b: Table, x: Table, y: Table, z: Table)
    ensures JoinThen(b, Join(b, x, y), Some(z)).None? <==>
            exists k :: LeftRow(Get(b, k), Get(x, k), Get(y, k), Get(z, k)) == Conflict
    ensures JoinThen(b, Join(b, x, y), Some(z)).Some? ==>
      forall k :: Get(JoinThen(b, Join(b, x, y), Some(z)).value, k) ==
                  AsOption(LeftRow(Get(b, k), Get(x, k), Get(y, k), Get(z, k)))
  {
    hide MergeRow;
    if Join(b, x, y).Some? {
      var xy := Join(b, x, y).value;
      forall k
        ensures MergeKey(b, xy, z, k) == LeftRow(Get(b, k), Get(x, k), Get(y, k), Get(z, k))
      {
        assert MergeKey(b, x, y, k) != Conflict;
        GetJoin(b, x, y, k);
      }
      if Join(b, xy, z).Some? {
        forall k {
          GetJoin(b, xy, z, k);
        }
      }
    } else {
      var k :| MergeKey(b, x, y, k) == Conflict;
      assert LeftRow(Get(b, k), Get(x, k), Get(y, k), Get(z, k)) == Conflict;
    }
  }

  lemma RightIsSwappedLeft(b: Table, x: Table, y: Table, z: Table)
    ensures JoinThen(b, Some(x), Join(b, y, z)) == JoinThen(b, Join(b, z, y), Some(x))
  {
    JoinCommutes(b, y, z);
    if Join(b, y, z).Some? {
      JoinCommutes(b, x, Join(b, y, z).value);
    }
  }

  ghost predicate AssociatesAt(b: Table, x: Table, y: Table, z: Table) {
    JoinThen(b, Join(b, x, y), Some(z)) == JoinThen(b, Some(x), Join(b, y, z))
  }

  /** If no base row ends in an empty cell, both ways to merge three tables agree, on the result and on conflict. */
  lemma JoinAssociates(b: Table, x: Table, y: Table, z: Table)
    requires NoRowEndsEmpty(b)
    ensures AssociatesAt(b, x, y, z)
  {
    hide MergeRow, Join, EndsEmpty;
    forall k
      ensures LeftRow(Get(b, k), Get(x, k), Get(y, k), Get(z, k)) == LeftRow(Get(b, k), Get(z, k), Get(y, k), Get(x, k))
    {
      RowAssociates(Get(b, k), Get(x, k), Get(y, k), Get(z, k));
      RowCommutes(Get(b, k), Get(y, k), Get(z, k));
      RowCommutes(Get(b, k), Get(x, k), AsOption(MergeRow(Get(b, k), Get(y, k), Get(z, k))));
    }
    RightIsSwappedLeft(b, x, y, z);
    LeftConflictIff(b, x, y, z);
    LeftConflictIff(b, z, y, x);
    var l, r := JoinThen(b, Join(b, x, y), Some(z)), JoinThen(b, Join(b, z, y), Some(x));
    if l.Some? {
      SameTable(l.value, r.value);
    }
  }

  lemma JoinIs(b: Table, o: Table, t: Table, m: Table)
    requires forall k :: MergeKey(b, o, t, k) != Conflict && AsOption(MergeKey(b, o, t, k)) == Get(m, k)
    ensures Join(b, o, t) == Some(m)
  {
    hide MergeKey;
    forall k {
      GetJoin(b, o, t, k);
    }
    SameTable(Join(b, o, t).value, m);
  }

  function WithoutLast(row: Row): Row {
    if row == [] then row else row[..|row| - 1]
  }

  /** A base row that ends in an empty cell merges with itself without that cell to itself. */
  lemma TrimmedIsAbsorbed(row: Row)
    requires EndsEmpty(row)
    ensures MergeRow(Some(row), Some(row), Some(WithoutLast(row))) == Keep(row)
    ensures MergeRow(Some(row), None, Some(WithoutLast(row))) == Conflict
  {
    var less := WithoutLast(row);
    PresentRow(row, row, less);
    forall c: nat
      ensures Cell(less, c) == Cell(row, c)
    {
    }
    assert CellsMerge(row, row, less);
    SameCells(MergeRow(Some(row), Some(row), Some(less)).row, row);
  }

  /** One side removes such a row, one leaves it, one drops its empty cell: the brackets decide the verdict. */
  lemma EmptyEndBreaks(b: Table, k: string)
    requires k in b && EndsEmpty(b[k])
    ensures !AssociatesAt(b, b - {k}, b, b[k := WithoutLast(b[k])])
  {
    var x, z := b - {k}, b[k := WithoutLast(b[k])];
    TrimmedIsAbsorbed(b[k]);
    hide CellsMerge, MergedCells, EndsEmpty, WithoutLast;
    JoinIs(b, x, b, x);
    assert MergeKey(b, x, z, k) == Conflict;
    JoinIs(b, b, z, b);
  }

  /** The merge with this base is associative exactly when no row of the base ends in an empty cell. */
  lemma JoinAssociatesIff(b: Table)
    ensures (forall x, y, z :: AssociatesAt(b, x, y, z)) <==> NoRowEndsEmpty(b)
  {
    hide AssociatesAt, EndsEmpty;
    if NoRowEndsEmpty(b) {
      forall x, y, z
        ensures AssociatesAt(b, x, y, z)
      {
        JoinAssociates(b, x, y, z);
      }
    } else {
      var k :| k in b && EndsEmpty(b[k]);
      EmptyEndBreaks(b, k);
    }
  }
}
