/** CSV text of a grid of cells, and a reader for the records of section 2 of RFC 4180 with LF line ends. */
module SheetsCsv {
  import opened Wrappers

  type Row = seq<string>

  datatype SheetsError = EmptyData

  // ---- the printer ----

  predicate NeedsQuotes(cell: string) {
    ',' in cell || '"' in cell || '\n' in cell || '\r' in cell
  }

  /** Every quote replaced by two. */
  function Doubled(s: string): string {
    if s == "" then "" else (if s[0] == '"' then "\"\"" else [s[0]]) + Doubled(s[1..])
  }

  function Escape(cell: string): string {
    if NeedsQuotes(cell) then "\"" + Doubled(cell) + "\"" else cell
  }

  function Joined(cells: seq<string>): string {
    if cells == [] then ""
    else if |cells| == 1 then cells[0]
    else cells[0] + "," + Joined(cells[1..])
  }

  function Escaped(row: Row): seq<string> {
    seq(|row|, i requires 0 <= i < |row| => Escape(row[i]))
  }

  function Printed(grid: seq<Row>): string {
    if grid == [] then "" else Joined(Escaped(grid[0])) + "\n" + Printed(grid[1..])
  }

  lemma {:induction false} PrintedAppend(grid: seq<Row>, row: Row)
    ensures Printed(grid + [row]) == Printed(grid) + (Joined(Escaped(row)) + "\n")
  {
    if grid == [] {
      assert [row][1..] == [];
    } else {
      assert (grid + [row])[1..] == grid[1..] + [row];
      PrintedAppend(grid[1..], row);
    }
  }

  method ValuesToCsv(grid: seq<Row>) returns (r: Result<string, SheetsError>)
    ensures grid == [] <==> r == Err(EmptyData)
    ensures r.Ok? ==> r.value == Printed(grid)
  {
    if grid == [] {
      return Err(EmptyData);
    }
    var csv := "";
    for i := 0 to |grid|
      invariant csv == Printed(grid[..i])
    {
      assert grid[..i + 1] == grid[..i] + [grid[i]];
      PrintedAppend(grid[..i], grid[i]);
      var escaped := Escaped(grid[i]);
      csv := csv + Joined(escaped);
      csv := csv + "\n";
      assert csv == Printed(grid[..i]) + (Joined(escaped) + "\n");
    }
    assert grid[..|grid|] == grid;
    r := Ok(csv);
  }

  // ---- the reader ----

  datatype Scan<T> = Scan(value: T, rest: string)

  /** The text of a quoted field, from behind its opening quote. */
  function ReadQuoted(s: string): (r: Option<Scan<string>>)
    ensures r.Some? ==> |r.value.rest| < |s|
    decreases |s|
  {
    if s == "" then None
    else if s[0] != '"' then
      match ReadQuoted(s[1..])
      case Some(Scan(text, rest)) => Some(Scan([s[0]] + text, rest))
      case None => None
    else if |s| > 1 && s[1] == '"' then
      match ReadQuoted(s[2..])
      case Some(Scan(text, rest)) => Some(Scan("\"" + text, rest))
      case None => None
    else Some(Scan("", s[1..]))
  }

  predicate EndsField(s: string) {
    s == "" || s[0] == ',' || s[0] == '\n'
  }

  /** The text of a plain field: no quote and no carriage return stands in it. */
  function ReadPlain(s: string): (r: Option<Scan<string>>)
    ensures r.Some? ==> |r.value.rest| <= |s|
  {
    if EndsField(s) then Some(Scan("", s))
    else if s[0] == '"' || s[0] == '\r' then None
    else
      match ReadPlain(s[1..])
      case Some(Scan(text, rest)) => Some(Scan([s[0]] + text, rest))
      case None => None
  }

  function ReadField(s: string): (r: Option<Scan<string>>)
    ensures r.Some? ==> |r.value.rest| <= |s| && EndsField(r.value.rest)
  {
    if s != "" && s[0] == '"' then
      var r := ReadQuoted(s[1..]);
      if r.Some? && EndsField(r.value.rest) then r else None
    else
      var r := ReadPlain(s);
      if r.Some? && EndsField(r.value.rest) then r else None
  }

  /** Fields up to the end of the line, which is passed over. */
  function ReadRecord(s: string): (r: Option<Scan<Row>>)
    ensures r.Some? ==> |r.value.rest| < |s| || s == "" || r.value.rest == ""
    decreases |s|
  {
    match ReadField(s)
    case None => None
    case Some(Scan(cell, rest)) =>
      if rest == "" then Some(Scan([cell], ""))
      else if rest[0] == '\n' then Some(Scan([cell], rest[1..]))
      else
        match ReadRecord(rest[1..])
        case None => None
        case Some(Scan(cells, after)) => Some(Scan([cell] + cells, after))
  }

  function Read(s: string): Option<seq<Row>>
    decreases |s|
  {
    if s == "" then Some([])
    else
      match ReadRecord(s)
      case None => None
      case Some(Scan(row, rest)) =>
        match Read(rest)
        case None => None
        case Some(rows) => Some([row] + rows)
  }

  // ---- reading what was printed ----

  lemma {:induction false} ReadsDoubled(cell: string, rest: string)
    requires EndsField(rest)
    ensures ReadQuoted(Doubled(cell) + "\"" + rest) == Some(Scan(cell, rest))
  {
    var s := Doubled(cell) + "\"" + rest;
    if cell == "" {
      assert s == "\"" + rest && s[1..] == rest;
    } else {
      var tail := Doubled(cell[1..]) + "\"" + rest;
      ReadsDoubled(cell[1..], rest);
      if cell[0] == '"' {
        assert s == "\"\"" + tail && s[2..] == tail;
      } else {
        assert s == [cell[0]] + tail && s[1..] == tail;
      }
      assert cell == [cell[0]] + cell[1..];
    }
  }

  lemma {:induction false} ReadsPlain(cell: string, rest: string)
    requires !NeedsQuotes(cell) && EndsField(rest)
    ensures ReadPlain(cell + rest) == Some(Scan(cell, rest))
  {
    if cell == "" {
      assert cell + rest == rest;
    } else {
      assert (cell + rest)[0] == cell[0] && cell[0] in cell;
      assert (cell + rest)[1..] == cell[1..] + rest;
      ReadsPlain(cell[1..], rest);
      assert cell == [cell[0]] + cell[1..];
    }
  }

  lemma StartsPlain(cell: string, rest: string)
    requires !NeedsQuotes(cell) && EndsField(rest)
    ensures cell + rest != "" ==> (cell + rest)[0] != '"'
  {
    if cell == "" {
      assert cell + rest == rest;
    } else {
      assert cell[0] in cell;
    }
  }

  /** One printed cell reads back, whatever it holds. */
  lemma ReadsEscaped(cell: string, rest: string)
    requires EndsField(rest)
    ensures ReadField(Escape(cell) + rest) == Some(Scan(cell, rest))
  {
    hide ReadQuoted, ReadPlain, Doubled, NeedsQuotes;
    var s := Escape(cell) + rest;
    if NeedsQuotes(cell) {
      ReadsDoubled(cell, rest);
      assert s[0] == '"' && s[1..] == Doubled(cell) + "\"" + rest;
    } else {
      ReadsPlain(cell, rest);
      StartsPlain(cell, rest);
    }
  }

  /** A cell is printed as it is exactly when it holds no comma, quote or line end. */
  lemma PrintedAsItIsIff(cell: string)
    ensures Escape(cell) == cell <==> forall i :: 0 <= i < |cell| ==> cell[i] !in ",\"\n\r"
  {
    DoubledIsNoShorter(cell);
    hide Doubled;
    assert forall c :: c in ",\"\n\r" <==> c == ',' || c == '"' || c == '\n' || c == '\r';
    assert forall c :: c in cell <==> exists i :: 0 <= i < |cell| && cell[i] == c;
  }

  lemma {:induction false} DoubledIsNoShorter(s: string)
    ensures |Doubled(s)| >= |s|
  {
    if s != "" {
      DoubledIsNoShorter(s[1..]);
    }
  }

  /** A row as it reads back: a row without cells prints like a row with one empty cell. */
  function AsRead(row: Row): Row {
    if row == [] then [""] else row
  }

  lemma {:induction false} ReadsRow(row: Row, rest: string)
    ensures ReadRecord(Joined(Escaped(row)) + "\n" + rest) == Some(Scan(AsRead(row), rest))
    decreases |row|
  {
    hide ReadField, Escape, NeedsQuotes;
    var s := Joined(Escaped(row)) + "\n" + rest;
    var line := "\n" + rest;
    assert line[1..] == rest;
    if row == [] {
      ReadsEscaped("", line);
      EscapeEmpty();
      assert s == "" + line;
    } else if |row| == 1 {
      ReadsEscaped(row[0], line);
      assert s == Escape(row[0]) + line && row == [row[0]];
    } else {
      var tail := Joined(Escaped(row[1..])) + "\n" + rest;
      assert Escaped(row)[1..] == Escaped(row[1..]);
      assert s == Escape(row[0]) + ("," + tail);
      ReadsEscaped(row[0], "," + tail);
      assert ("," + tail)[1..] == tail;
      ReadsRow(row[1..], rest);
      assert row == [row[0]] + row[1..];
    }
  }

  lemma EscapeEmpty()
    ensures Escape("") == ""
  {
  }

  function AllAsRead(grid: seq<Row>): (r: seq<Row>)
    ensures |r| == |grid|
  {
    seq(|grid|, i requires 0 <= i < |grid| => AsRead(grid[i]))
  }

  lemma {:induction false} ReadsPrinted(grid: seq<Row>)
    ensures Read(Printed(grid)) == Some(AllAsRead(grid))
  {
    if grid != [] {
      hide ReadRecord, Joined;
      var s := Printed(grid);
      assert s == Joined(Escaped(grid[0])) + "\n" + Printed(grid[1..]);
      ReadsRow(grid[0], Printed(grid[1..]));
      ReadsPrinted(grid[1..]);
      assert AllAsRead(grid) == [AsRead(grid[0])] + AllAsRead(grid[1..]);
    }
  }

  /** The reader undoes the printer exactly on the grids whose rows all have a cell. */
  lemma ReadsBackIff(grid: seq<Row>)
    ensures Read(Printed(grid)) == Some(grid) <==> forall i :: 0 <= i < |grid| ==> grid[i] != []
  {
    ReadsPrinted(grid);
    assert AllAsRead(grid) == grid ==> forall i :: 0 <= i < |grid| ==> AllAsRead(grid)[i] == grid[i];
  }

  /** Two grids print alike exactly when they differ only in rows without cells standing for one empty cell. */
  lemma PrintsAlikeIff(a: seq<Row>, b: seq<Row>)
    ensures Printed(a) == Printed(b) <==> AllAsRead(a) == AllAsRead(b)
  {
    ReadsPrinted(a);
    ReadsPrinted(b);
    PrintsAsRead(a);
    PrintsAsRead(b);
  }

  lemma {:induction false} PrintsAsRead(grid: seq<Row>)
    ensures Printed(AllAsRead(grid)) == Printed(grid)
  {
    if grid != [] {
      PrintsAsRead(grid[1..]);
      assert AllAsRead(grid)[1..] == AllAsRead(grid[1..]);
      if grid[0] == [] {
        EscapeEmpty();
        assert Escaped([""]) == [""];
      }
    }
  }
}
