/** Keys for the rows of a CSV table, aware of duplicate first cells. */
module CsvRows {
  import opened Text

  type Row = seq<string>

  const DUP: string := "__dup"

  function Digit(n: nat): char
    requires n < 10
  {
    "0123456789"[n]
  }

  function Decimal(n: nat): (s: string)
    ensures s != "" && (|s| == 1 <==> n < 10)
    ensures forall i :: 0 <= i < |s| ==> s[i] in "0123456789"
  {
    if n < 10 then [Digit(n)] else Decimal(n / 10) + [Digit(n % 10)]
  }

  function First(row: Row): string {
    if row == [] then "" else row[0]
  }

  function RowKey(row: Row, occurrence: nat): string {
    if occurrence == 0 then First(row) else First(row) + DUP + Decimal(occurrence)
  }

  /** How many of the first `n` rows start with `cell`. */
  function Occurrences(rows: seq<Row>, n: nat, cell: string): nat
    requires n <= |rows|
  {
    if n == 0 then 0
    else Occurrences(rows, n - 1, cell) + if First(rows[n - 1]) == cell then 1 else 0
  }

  function KeyAt(rows: seq<Row>, i: nat): string
    requires i < |rows|
  {
    RowKey(rows[i], Occurrences(rows, i, First(rows[i])))
  }

  function Keys(rows: seq<Row>): (keys: seq<string>)
    ensures |keys| == |rows|
  {
    seq(|rows|, i requires 0 <= i < |rows| => KeyAt(rows, i))
  }

  /** The map built from the first `n` rows; a later row under the same key replaces an earlier one. */
  function KeyedUpTo(rows: seq<Row>, n: nat): map<string, Row>
    requires n <= |rows|
  {
    if n == 0 then map[] else KeyedUpTo(rows, n - 1)[KeyAt(rows, n - 1) := rows[n - 1]]
  }

  function Keyed(rows: seq<Row>): map<string, Row> {
    KeyedUpTo(rows, |rows|)
  }

  method BuildKeyedRows(rows: seq<Row>) returns (order: seq<string>, m: map<string, Row>)
    ensures order == Keys(rows) && m == Keyed(rows)
  {
    hide RowKey, First;
    order, m := [], map[];
    var counts: map<string, nat> := map[];
    for i := 0 to |rows|
      invariant forall cell :: cell in counts ==> counts[cell] == Occurrences(rows, i, cell)
      invariant forall cell :: cell !in counts ==> Occurrences(rows, i, cell) == 0
      invariant order == Keys(rows)[..i]
      invariant m == KeyedUpTo(rows, i)
    {
      var row := rows[i];
      var raw := First(row);
      var count := if raw in counts then counts[raw] else 0;
      var key := RowKey(row, count);
      counts := counts[raw := count + 1];
      order := order + [key];
      m := m[key := row];
    }
  }

  ghost predicate DistinctKeys(rows: seq<Row>) {
    forall i, j :: 0 <= i < j < |rows| ==> KeyAt(rows, i) != KeyAt(rows, j)
  }

  lemma {:induction false} OccurrencesGrow(rows: seq<Row>, i: nat, j: nat, cell: string)
    requires i < j <= |rows| && First(rows[i]) == cell
    ensures Occurrences(rows, i, cell) < Occurrences(rows, j, cell)
    decreases j
  {
    if i < j - 1 {
      OccurrencesGrow(rows, i, j - 1, cell);
    }
  }

  /** A cell that occurs at all has a first row, whose occurrence number is zero. */
  lemma {:induction false} FirstOccurrence(rows: seq<Row>, j: nat) returns (k: nat)
    requires j < |rows|
    ensures k <= j && First(rows[k]) == First(rows[j]) && Occurrences(rows, k, First(rows[j])) == 0
  {
    k := j;
    var cell := First(rows[j]);
    while Occurrences(rows, k, cell) > 0
      invariant k <= j && First(rows[k]) == cell
      decreases k
    {
      k := PreviousOccurrence(rows, k, cell);
    }
  }

  lemma {:induction false} PreviousOccurrence(rows: seq<Row>, n: nat, cell: string) returns (k: nat)
    requires n <= |rows| && Occurrences(rows, n, cell) > 0
    ensures k < n && First(rows[k]) == cell
  {
    if First(rows[n - 1]) == cell {
      k := n - 1;
    } else {
      k := PreviousOccurrence(rows, n - 1, cell);
    }
  }

  lemma {:induction false} DecimalInjective(a: nat, b: nat)
    requires Decimal(a) == Decimal(b)
    ensures a == b
  {
    var s := Decimal(a);
    assert s[|s| - 1] == Digit(a % 10) == Digit(b % 10);
    DigitInjective(a % 10, b % 10);
    if a >= 10 {
      assert Decimal(a / 10) == s[..|s| - 1] == Decimal(b / 10);
      DecimalInjective(a / 10, b / 10);
    }
  }

  lemma DigitInjective(a: nat, b: nat)
    requires a < 10 && b < 10 && Digit(a) == Digit(b)
    ensures a == b
  {
  }

  /** The last `__dup` of a numbered key separates the cell from the number. */
  lemma NumberedKeysSplit(r: string, d: string, r': string, d': string)
    requires r + DUP + d == r' + DUP + d'
    requires forall c :: c in d || c in d' ==> c in "0123456789"
    ensures r == r' && d == d'
  {
    if |r| == |r'| {
      assert r == (r + DUP + d)[..|r|] == r';
      assert d == (r + DUP + d)[|r| + 5..] == d';
    } else if |r| < |r'| {
      SplitNotLater(r, d, r', d');
    } else {
      SplitNotLater(r', d', r, d);
    }
  }

  lemma SplitNotLater(r: string, d: string, r': string, d': string)
    requires r + DUP + d == r' + DUP + d'
    requires forall c :: c in d ==> c in "0123456789"
    ensures |r'| <= |r|
  {
    var s := r + DUP + d;
    assert s[|r'|] == '_' && s[|r'| + 1] == '_';
    forall m | |r| + 1 < m < |s|
      ensures s[m] != '_'
    {
      if m < |r| + 5 {
        assert s[m] == DUP[m - |r|];
      } else {
        assert s[m] == d[m - |r| - 5] && d[m - |r| - 5] in d;
      }
    }
  }

  /** Some first cell spells the numbered key of another row. */
  ghost predicate SpellsNumberedKey(rows: seq<Row>) {
    exists i, j ::
      && 0 <= i < |rows| && 0 <= j < |rows|
      && Occurrences(rows, i, First(rows[i])) > 0
      && First(rows[j]) == KeyAt(rows, i)
  }

  /** Keys collide exactly when a first cell spells the numbered key of another row. */
  lemma KeysDistinctIff(rows: seq<Row>)
    ensures DistinctKeys(rows) <==> !SpellsNumberedKey(rows)
  {
    if SpellsNumberedKey(rows) {
      var i, j :| 0 <= i < |rows| && 0 <= j < |rows| && Occurrences(rows, i, First(rows[i])) > 0
                  && First(rows[j]) == KeyAt(rows, i);
      var k := FirstOccurrence(rows, j);
      assert KeyAt(rows, k) == KeyAt(rows, i);
      assert k != i;
    } else {
      forall i, j | 0 <= i < j < |rows|
        ensures KeyAt(rows, i) != KeyAt(rows, j)
      {
        OnlySpelledKeysCollide(rows, i, j);
      }
    }
  }

  lemma OnlySpelledKeysCollide(rows: seq<Row>, i: nat, j: nat)
    requires i < j < |rows| && !SpellsNumberedKey(rows)
    ensures KeyAt(rows, i) != KeyAt(rows, j)
  {
    var r, r' := First(rows[i]), First(rows[j]);
    var c, c' := Occurrences(rows, i, r), Occurrences(rows, j, r');
    if r == r' {
      OccurrencesGrow(rows, i, j, r);
    }
    if KeyAt(rows, i) == KeyAt(rows, j) && c > 0 && c' > 0 {
      NumberedKeysSplit(r, Decimal(c), r', Decimal(c'));
      DecimalInjective(c, c');
    }
  }

  /** The condition the naming scheme is built on: no first cell contains the marker. */
  lemma KeysDistinctWithoutMarker(rows: seq<Row>)
    requires forall i :: 0 <= i < |rows| ==> !Occurs(First(rows[i]), DUP)
    ensures DistinctKeys(rows)
  {
    KeysDistinctIff(rows);
    forall i, j | 0 <= i < |rows| && 0 <= j < |rows| && Occurrences(rows, i, First(rows[i])) > 0
      ensures First(rows[j]) != KeyAt(rows, i)
    {
      var r, n := First(rows[i]), Decimal(Occurrences(rows, i, First(rows[i])));
      MatchInRight(r, DUP + n, DUP, 0);
      assert r + (DUP + n) == KeyAt(rows, i);
    }
  }

  /** Three rows of which two collide. */
  lemma CollidingKeys()
    ensures !DistinctKeys([["a"], ["a"], ["a__dup1"]])
    ensures |Keyed([["a"], ["a"], ["a__dup1"]])| < 3
  {
    var rows: seq<Row> := [["a"], ["a"], ["a__dup1"]];
    assert Occurrences(rows, 1, "a") == 1;
    assert Decimal(1) == "1";
    assert KeyAt(rows, 1) == "a__dup1";
    assert Occurrences(rows, 2, "a__dup1") == 0;
    assert KeyAt(rows, 2) == "a__dup1";
    assert KeyAt(rows, 0) == "a";
    assert Keyed(rows) == KeyedUpTo(rows, 2)["a__dup1" := ["a__dup1"]];
    assert KeyedUpTo(rows, 2) == KeyedUpTo(rows, 1)["a__dup1" := ["a"]];
    assert KeyedUpTo(rows, 1) == map["a" := ["a"]];
  }

  lemma {:induction false} KeyedDomain(rows: seq<Row>, n: nat)
    requires n <= |rows|
    ensures forall k :: k in KeyedUpTo(rows, n) <==> exists i :: 0 <= i < n && KeyAt(rows, i) == k
  {
    if n > 0 {
      KeyedDomain(rows, n - 1);
    }
  }

  /** With distinct keys no row is lost: looking up the key of row i returns row i. */
  lemma {:induction false} LookUpReturnsRow(rows: seq<Row>, n: nat, i: nat)
    requires DistinctKeys(rows) && i < n <= |rows|
    ensures KeyAt(rows, i) in KeyedUpTo(rows, n) && KeyedUpTo(rows, n)[KeyAt(rows, i)] == rows[i]
  {
    if i < n - 1 {
      LookUpReturnsRow(rows, n - 1, i);
    }
  }
}
