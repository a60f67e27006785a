/**
 * The merge of lists of rows: which rows it lists, and when the list it returns is keyed to the same table again.
 */
module CsvLists {
  import opened Wrappers
  import opened Text
  import opened Places
  import opened CsvRows
  import opened CsvMerge
  import opened CsvAlgebra

  /** A list of rows that holds each row of a table once. */
  ghost predicate Lists(rows: seq<Row>, m: Table) {
    exists keys: seq<string> :: ListsBy(rows, m, keys)
  }

  ghost predicate ListsBy(rows: seq<Row>, m: Table, keys: seq<string>) {
    && |keys| == |rows|
    && (forall i, j :: 0 <= i < j < |keys| ==> keys[i] != keys[j])
    && (forall k :: k in keys <==> k in m)
    && (forall i :: 0 <= i < |keys| ==> keys[i] in m && rows[i] == m[keys[i]])
  }

  ghost predicate KeptKeys(b: Table, o: Table, t: Table, keys: seq<string>, kept: seq<string>, rows: seq<Row>) {
    && |kept| == |rows|
    && (forall i, j :: 0 <= i < j < |kept| ==> kept[i] != kept[j])
    && (forall k :: k in kept <==> k in keys && MergeKey(b, o, t, k).Keep?)
    && (forall i :: 0 <= i < |kept| ==> MergeKey(b, o, t, kept[i]) == Keep(rows[i]))
  }

  ghost predicate Distinct(keys: seq<string>) {
    forall i, j :: 0 <= i < j < |keys| ==> keys[i] != keys[j]
  }

  /** The keys that keep a row, in order. */
  ghost function KeptOf(b: Table, o: Table, t: Table, keys: seq<string>): (kept: seq<string>)
    ensures forall k :: k in kept <==> k in keys && MergeKey(b, o, t, k).Keep?
  {
    if keys == [] then []
    else
      var init, k := keys[..|keys| - 1], keys[|keys| - 1];
      assert forall x :: x in keys <==> x in init || x == k;
      KeptOf(b, o, t, init) + if MergeKey(b, o, t, k).Keep? then [k] else []
  }

  /** One more key: the kept keys grow by it if it keeps a row. */
  lemma KeptExtend(b: Table, o: Table, t: Table, init: seq<string>, k: string, kept: seq<string>, rows: seq<Row>)
    requires KeptKeys(b, o, t, init, kept, rows) && k !in init && MergeKey(b, o, t, k) != Conflict
    ensures MergeKey(b, o, t, k).Keep? ==>
      KeptKeys(b, o, t, init + [k], kept + [k], rows + [MergeKey(b, o, t, k).row])
    ensures MergeKey(b, o, t, k) == Drop ==> KeptKeys(b, o, t, init + [k], kept, rows)
  {
    hide MergeKey;
    assert forall x :: x in init + [k] <==> x in init || x == k;
    assert forall x :: x in kept + [k] <==> x in kept || x == k;
  }

  lemma {:induction false} MergeKeysLists(b: Table, o: Table, t: Table, keys: seq<string>)
    requires Distinct(keys)
    ensures MergeKeys(b, o, t, keys).None? <==> exists k :: k in keys && MergeKey(b, o, t, k) == Conflict
    ensures MergeKeys(b, o, t, keys).Some? ==>
      KeptKeys(b, o, t, keys, KeptOf(b, o, t, keys), MergeKeys(b, o, t, keys).value)
  {
    if keys == [] {
      NoKeysKept(b, o, t);
    } else {
      hide MergeKey, KeptKeys;
      var init, k := keys[..|keys| - 1], keys[|keys| - 1];
      assert keys == init + [k];
      MergeKeysLists(b, o, t, init);
      if MergeKeys(b, o, t, init).Some? && MergeKey(b, o, t, k) != Conflict {
        KeptExtend(b, o, t, init, k, KeptOf(b, o, t, init), MergeKeys(b, o, t, init).value);
        assert KeptOf(b, o, t, init) + [] == KeptOf(b, o, t, init);
      }
    }
  }

  lemma NoKeysKept(b: Table, o: Table, t: Table)
    ensures KeptKeys(b, o, t, [], [], [])
  {
  }

  lemma KeyOrderIsComplete(base: seq<Row>, ours: seq<Row>, theirs: seq<Row>)
    ensures forall k ::
      k in KeyOrder(base, ours, theirs) <==> k in Keyed(base) || k in Keyed(ours) || k in Keyed(theirs)
  {
    hide Keyed, Keys, Dedup;
    KeyedKeys(base);
    KeyedKeys(ours);
    KeyedKeys(theirs);
    forall k
      ensures k in KeyOrder(base, ours, theirs) <==> k in Keyed(base) || k in Keyed(ours) || k in Keyed(theirs)
    {
      InConcat(Keys(base), Keys(ours), Keys(theirs), k);
    }
  }

  lemma KeptKeysListJoin(b: Table, o: Table, t: Table, keys: seq<string>, kept: seq<string>, rows: seq<Row>)
    requires KeptKeys(b, o, t, keys, kept, rows) && Join(b, o, t).Some?
    requires forall k :: k in keys <==> k in b || k in o || k in t
    ensures ListsBy(rows, Join(b, o, t).value, kept) && Lists(rows, Join(b, o, t).value)
  {
    hide MergeKey;
  }

  /** The keys under which the rows of the merged list were kept, in the list's order. */
  ghost function KeptKeyOrder(base: seq<Row>, ours: seq<Row>, theirs: seq<Row>): seq<string> {
    KeptOf(Keyed(base), Keyed(ours), Keyed(theirs), KeyOrder(base, ours, theirs))
  }

  /** For all tables: the merge of the lists conflicts when the join does, and lists its rows otherwise. */
  lemma MergeRowsLists(base: seq<Row>, ours: seq<Row>, theirs: seq<Row>)
    ensures var j := Join(Keyed(base), Keyed(ours), Keyed(theirs));
      && (MergeRows(base, ours, theirs).Some? <==> j.Some?)
      && (j.Some? ==>
            && Lists(MergeRows(base, ours, theirs).value, j.value)
            && ListsBy(MergeRows(base, ours, theirs).value, j.value, KeptKeyOrder(base, ours, theirs)))
  {
    hide MergeKey, Keyed, Keys, MergeKeys, Dedup, KeptKeys, KeptOf, Lists, ListsBy;
    var b, o, t := Keyed(base), Keyed(ours), Keyed(theirs);
    var keys := KeyOrder(base, ours, theirs);
    MergeKeysLists(b, o, t, keys);
    KeyOrderIsComplete(base, ours, theirs);
    forall k | k !in keys
      ensures MergeKey(b, o, t, k) == Drop
    {
      UnknownKeyDrops(b, o, t, k);
    }
    if Join(b, o, t).Some? {
      var rows := MergeRows(base, ours, theirs).value;
      KeptKeysListJoin(b, o, t, keys, KeptOf(b, o, t, keys), rows);
    }
  }

  lemma InConcat(a: seq<string>, b: seq<string>, c: seq<string>, k: string)
    ensures k in a + b + c <==> k in a || k in b || k in c
  {
  }

  lemma KeyedKeys(rows: seq<Row>)
    ensures forall k :: k in Keys(rows) <==> k in Keyed(rows)
  {
    hide KeyAt;
    KeyedDomain(rows, |rows|);
    forall i | 0 <= i < |rows|
      ensures Keys(rows)[i] == KeyAt(rows, i)
    {
    }
  }

  // ---- keys of a merged list ----

  /** First cells without the marker that numbers duplicates. */
  ghost predicate Unmarked(rows: seq<Row>) {
    forall i :: 0 <= i < |rows| ==> !Occurs(First(rows[i]), DUP)
  }

  /** The key of the row that is preceded by `n` rows with the same first cell. */
  function NumberedKey(cell: string, n: nat): string {
    if n == 0 then cell else cell + DUP + Decimal(n)
  }

  /** A key names its cell and number, if the cell has no marker. */
  lemma NumberedKeyDecides(r: string, c: nat, r': string, c': nat)
    requires !Occurs(r, DUP) && NumberedKey(r, c) == NumberedKey(r', c') && (c' > 0 || !Occurs(r', DUP))
    ensures r == r' && c == c'
  {
    if c == 0 && c' > 0 {
      MarkerOccurs(r', Decimal(c'));
    } else if c > 0 && c' == 0 {
      MarkerOccurs(r, Decimal(c));
    } else if c > 0 {
      NumberedKeysSplit(r, Decimal(c), r', Decimal(c'));
      DecimalInjective(c, c');
    }
  }

  lemma MarkerOccurs(r: string, d: string)
    ensures Occurs(r + DUP + d, DUP)
  {
    MatchInRight(r, DUP + d, DUP, 0);
    assert r + (DUP + d) == r + DUP + d;
  }

  /** The key is the row's own first cell, numbered. */
  ghost predicate Spells(k: string, row: Row) {
    !Occurs(First(row), DUP) && exists n: nat :: k == NumberedKey(First(row), n)
  }

  ghost predicate KeysSpellFirst(m: Table) {
    forall k :: k in m ==> Spells(k, m[k])
  }

  /** Every numbered key comes after the key with the number before. */
  ghost predicate NumbersInOrder(keys: seq<string>) {
    forall i: nat, r, n: nat :: i < |keys| && keys[i] == NumberedKey(r, n + 1) ==> NumberedKey(r, n) in keys[..i]
  }

  lemma KeysInOrder(rows: seq<Row>)
    requires Unmarked(rows)
    ensures NumbersInOrder(Keys(rows)) && KeysSpellFirst(Keyed(rows))
  {
    var keys := Keys(rows);
    forall i: nat, r, n: nat | i < |keys| && keys[i] == NumberedKey(r, n + 1)
      ensures NumberedKey(r, n) in keys[..i]
    {
      var cell := First(rows[i]);
      assert keys[i] == NumberedKey(cell, Occurrences(rows, i, cell));
      NumberedKeyDecides(cell, Occurrences(rows, i, cell), r, n + 1);
      var j := PreviousRow(rows, i, cell);
      assert keys[..i][j] == NumberedKey(r, n);
    }
    KeysDistinctWithoutMarker(rows);
    KeyedDomain(rows, |rows|);
    forall k | k in Keyed(rows)
      ensures Spells(k, Keyed(rows)[k])
    {
      var i :| 0 <= i < |rows| && KeyAt(rows, i) == k;
      LookUpReturnsRow(rows, |rows|, i);
      assert k == NumberedKey(First(rows[i]), Occurrences(rows, i, First(rows[i])));
    }
  }

  /** The row before that has the same first cell. */
  lemma {:induction false} PreviousRow(rows: seq<Row>, n: nat, cell: string) returns (k: nat)
    requires n <= |rows| && Occurrences(rows, n, cell) > 0
    ensures k < n && First(rows[k]) == cell && Occurrences(rows, k, cell) == Occurrences(rows, n, cell) - 1
  {
    if First(rows[n - 1]) == cell {
      k := n - 1;
    } else {
      k := PreviousRow(rows, n - 1, cell);
    }
  }

  lemma ConcatInOrder(a: seq<string>, b: seq<string>)
    requires NumbersInOrder(a) && NumbersInOrder(b)
    ensures NumbersInOrder(a + b)
  {
    var all := a + b;
    forall i: nat, r, n: nat | i < |all| && all[i] == NumberedKey(r, n + 1)
      ensures NumberedKey(r, n) in all[..i]
    {
      if i < |a| {
        assert all[..i] == a[..i];
      } else {
        assert all[..i] == a + b[..i - |a|];
      }
    }
  }

  lemma InitInOrder(keys: seq<string>)
    requires keys != [] && NumbersInOrder(keys)
    ensures NumbersInOrder(keys[..|keys| - 1])
  {
    hide NumberedKey;
    var init := keys[..|keys| - 1];
    assert forall i: nat :: i < |init| ==> init[i] == keys[i] && init[..i] == keys[..i];
  }

  lemma {:induction false} DedupInOrder(keys: seq<string>)
    requires NumbersInOrder(keys)
    ensures NumbersInOrder(Dedup(keys))
  {
    if keys != [] {
      hide NumbersInOrder, NumberedKey;
      var init, k := keys[..|keys| - 1], keys[|keys| - 1];
      InitInOrder(keys);
      DedupInOrder(init);
      assert keys == init + [k];
      AppendInOrder(Dedup(init), init, k);
    }
  }

  lemma AppendInOrder(list: seq<string>, init: seq<string>, k: string)
    requires NumbersInOrder(list) && NumbersInOrder(init + [k])
    requires forall r, n: nat :: k == NumberedKey(r, n + 1) && NumberedKey(r, n) in init ==> NumberedKey(r, n) in list
    ensures NumbersInOrder(list + [k])
  {
    var all := list + [k];
    forall i: nat, r, n: nat | i < |all| && all[i] == NumberedKey(r, n + 1)
      ensures NumberedKey(r, n) in all[..i]
    {
      if i < |list| {
        assert all[..i] == list[..i];
      } else {
        assert (init + [k])[|init|] == k && (init + [k])[..|init|] == init && all[..i] == list;
      }
    }
  }

  lemma KeyOrderInOrder(base: seq<Row>, ours: seq<Row>, theirs: seq<Row>)
    requires Unmarked(base) && Unmarked(ours) && Unmarked(theirs)
    ensures NumbersInOrder(KeyOrder(base, ours, theirs))
  {
    hide NumbersInOrder, Keys, Dedup;
    KeysInOrder(base);
    KeysInOrder(ours);
    KeysInOrder(theirs);
    ConcatInOrder(Keys(base), Keys(ours));
    ConcatInOrder(Keys(base) + Keys(ours), Keys(theirs));
    DedupInOrder(Keys(base) + Keys(ours) + Keys(theirs));
  }

  /** Where a numbered key keeps a row, so does the key with the number before. */
  ghost predicate GapFree(m: Table) {
    forall r, n: nat :: NumberedKey(r, n + 1) in m ==> NumberedKey(r, n) in m
  }

  lemma {:induction false} KeptInOrder(b: Table, o: Table, t: Table, keys: seq<string>)
    requires NumbersInOrder(keys)
    requires forall r, n: nat ::
      MergeKey(b, o, t, NumberedKey(r, n + 1)).Keep? ==> MergeKey(b, o, t, NumberedKey(r, n)).Keep?
    ensures NumbersInOrder(KeptOf(b, o, t, keys))
  {
    if keys != [] {
      hide MergeKey, NumberedKey;
      var init, k := keys[..|keys| - 1], keys[|keys| - 1];
      assert forall i: nat :: i < |init| ==> init[i] == keys[i] && init[..i] == keys[..i];
      KeptInOrder(b, o, t, init);
      assert keys == init + [k];
      if MergeKey(b, o, t, k).Keep? {
        AppendInOrder(KeptOf(b, o, t, init), init, k);
      } else {
        assert KeptOf(b, o, t, init) + [] == KeptOf(b, o, t, init);
      }
    }
  }

  lemma {:induction false} LowerNumbersBefore(keys: seq<string>, i: nat, r: string, c: nat, n: nat)
    requires NumbersInOrder(keys) && i < |keys| && keys[i] == NumberedKey(r, c) && n < c
    ensures NumberedKey(r, n) in keys[..i]
    decreases c
  {
    hide NumberedKey;
    assert NumberedKey(r, (c - 1) + 1) == keys[i];
    if n < c - 1 {
      var j: nat :| j < i && keys[j] == NumberedKey(r, c - 1);
      LowerNumbersBefore(keys, j, r, c - 1, n);
      assert forall k :: k in keys[..j] ==> k in keys[..i];
    }
  }

  /** Each row was kept under a key that spells its own first cell. */
  ghost predicate KeptUnderOwn(rows: seq<Row>, kept: seq<string>) {
    && |rows| == |kept|
    && forall i :: 0 <= i < |rows| ==> Spells(kept[i], rows[i])
  }

  /** Numbered keys in order, without gaps, are the keys that numbering the rows anew gives. */
  lemma {:induction false} RekeyedAt(rows: seq<Row>, kept: seq<string>, i: nat)
    requires KeptUnderOwn(rows, kept) && Distinct(kept) && NumbersInOrder(kept) && i < |rows|
    ensures forall j :: 0 <= j <= i ==> KeyAt(rows, j) == kept[j]
  {
    if i > 0 {
      RekeyedAt(rows, kept, i - 1);
    }
    hide NumberedKey, Occurrences, NumbersInOrder, Occurs;
    var r := First(rows[i]);
    var n: nat :| kept[i] == NumberedKey(r, n);
    var c := Occurrences(rows, i, r);
    NotFewer(rows, kept, i, n);
    NotMore(rows, kept, i, n);
    KeyAtIs(rows, i);
  }

  lemma KeyAtIs(rows: seq<Row>, i: nat)
    requires i < |rows|
    ensures KeyAt(rows, i) == NumberedKey(First(rows[i]), Occurrences(rows, i, First(rows[i])))
  {
  }

  lemma NotFewer(rows: seq<Row>, kept: seq<string>, i: nat, n: nat)
    requires KeptUnderOwn(rows, kept) && NumbersInOrder(kept) && i < |rows|
    requires forall j :: 0 <= j < i ==> KeyAt(rows, j) == kept[j]
    requires kept[i] == NumberedKey(First(rows[i]), n)
    ensures n <= Occurrences(rows, i, First(rows[i]))
  {
    if n > 0 {
      var r := First(rows[i]);
      LowerNumbersBefore(kept, i, r, n, n - 1);
      var m: nat :| m < i && kept[m] == NumberedKey(r, n - 1);
      KeyAtIs(rows, m);
      NumberedKeyDecides(First(rows[m]), Occurrences(rows, m, First(rows[m])), r, n - 1);
      OccurrencesGrow(rows, m, i, r);
    }
  }

  lemma InLonger(keys: seq<string>, j: nat, i: nat, k: string)
    requires j <= i <= |keys| && k in keys[..j]
    ensures k in keys[..i]
  {
    var m: nat :| m < j && keys[m] == k;
    assert keys[..i][m] == k;
  }

  /** Every number below the count of earlier equal cells was given to an earlier row. */
  lemma EarlierNumber(rows: seq<Row>, kept: seq<string>, i: nat, n: nat)
    requires NumbersInOrder(kept) && i < |rows| == |kept|
    requires forall j :: 0 <= j < i ==> KeyAt(rows, j) == kept[j]
    requires n < Occurrences(rows, i, First(rows[i]))
    ensures NumberedKey(First(rows[i]), n) in kept[..i]
  {
    hide *;
    var r := First(rows[i]);
    var c := Occurrences(rows, i, r);
    var j := PreviousRow(rows, i, r);
    KeyAtIs(rows, j);
    LowerInLonger(kept, j, i, r, c - 1, n);
  }

  lemma LowerInLonger(keys: seq<string>, j: nat, i: nat, r: string, c: nat, n: nat)
    requires NumbersInOrder(keys) && j < i <= |keys| && keys[j] == NumberedKey(r, c) && n <= c
    ensures NumberedKey(r, n) in keys[..i]
  {
    hide *;
    if n < c {
      LowerNumbersBefore(keys, j, r, c, n);
      InLonger(keys, j, i, NumberedKey(r, n));
    } else {
      assert keys[..i][j] == keys[j];
    }
  }

  lemma NotMore(rows: seq<Row>, kept: seq<string>, i: nat, n: nat)
    requires KeptUnderOwn(rows, kept) && Distinct(kept) && NumbersInOrder(kept) && i < |rows|
    requires forall j :: 0 <= j < i ==> KeyAt(rows, j) == kept[j]
    requires kept[i] == NumberedKey(First(rows[i]), n)
    ensures Occurrences(rows, i, First(rows[i])) <= n
  {
    hide KeyAt, RowKey, First, Decimal, Occurs, NumberedKey, NumbersInOrder, Occurrences;
    NotBefore(kept, i);
    if n < Occurrences(rows, i, First(rows[i])) {
      EarlierNumber(rows, kept, i, n);
    }
  }

  lemma NotBefore(keys: seq<string>, i: nat)
    requires Distinct(keys) && i < |keys|
    ensures keys[i] !in keys[..i]
  {
  }

  lemma RowSpelled(k: string, b: Option<Row>, o: Option<Row>, t: Option<Row>)
    requires b.Some? ==> Spells(k, b.value)
    requires o.Some? ==> Spells(k, o.value)
    requires t.Some? ==> Spells(k, t.value)
    requires MergeRow(b, o, t).Keep?
    ensures Spells(k, MergeRow(b, o, t).row)
  {
    hide NumberedKey, CellsMerge, MergedCells, Occurs;
    if b.Some? && o.Some? && t.Some? {
      SpelledAlike(k, b.value, o.value);
      SpelledAlike(k, b.value, t.value);
      PresentRow(b.value, o.value, t.value);
      var m := MergeRow(b, o, t).row;
      assert Some(Cell(m, 0)) == MergeCell(Cell(b.value, 0), Cell(o.value, 0), Cell(t.value, 0));
      assert First(m) == Cell(m, 0) == First(b.value);
    }
  }

  lemma SpelledAlike(k: string, row: Row, row': Row)
    requires Spells(k, row) && Spells(k, row')
    ensures First(row) == First(row')
  {
    hide NumberedKey;
    var n: nat :| k == NumberedKey(First(row), n);
    var n': nat :| k == NumberedKey(First(row'), n');
    NumberedKeyDecides(First(row), n, First(row'), n');
  }

  lemma JoinKeysSpellFirst(b: Table, o: Table, t: Table)
    requires KeysSpellFirst(b) && KeysSpellFirst(o) && KeysSpellFirst(t) && Join(b, o, t).Some?
    ensures KeysSpellFirst(Join(b, o, t).value)
  {
    hide Spells, MergeRow;
    var m := Join(b, o, t).value;
    forall k | k in m
      ensures Spells(k, m[k])
    {
      GetJoin(b, o, t, k);
      RowSpelled(k, Get(b, k), Get(o, k), Get(t, k));
    }
  }

  /** Rows whose keys are the keys they are listed under make up the listed table. */
  lemma KeyedAgain(rows: seq<Row>, m: Table, keys: seq<string>)
    requires ListsBy(rows, m, keys) && forall i :: 0 <= i < |rows| ==> KeyAt(rows, i) == keys[i]
    ensures Keyed(rows) == m
  {
    hide KeyAt;
    assert DistinctKeys(rows);
    KeyedDomain(rows, |rows|);
    forall k
      ensures Get(Keyed(rows), k) == Get(m, k)
    {
      if k in m {
        var i :| 0 <= i < |keys| && keys[i] == k;
        LookUpReturnsRow(rows, |rows|, i);
      }
    }
    SameTable(Keyed(rows), m);
  }

  lemma SpelledList(rows: seq<Row>, m: Table, keys: seq<string>)
    requires ListsBy(rows, m, keys) && KeysSpellFirst(m)
    ensures KeptUnderOwn(rows, keys) && Distinct(keys) && Unmarked(rows)
  {
    hide NumberedKey, Occurs;
  }

  lemma KeysSpelt(rows: seq<Row>)
    requires Unmarked(rows)
    ensures KeysSpellFirst(Keyed(rows)) && GapFree(Keyed(rows))
  {
    hide KeysSpellFirst, NumberedKey, Keyed, Keys, Unmarked;
    KeysInOrder(rows);
    KeyedKeys(rows);
    var keys := Keys(rows);
    forall r, n: nat | NumberedKey(r, n + 1) in Keyed(rows)
      ensures NumberedKey(r, n) in Keyed(rows)
    {
      var i: nat :| i < |keys| && keys[i] == NumberedKey(r, n + 1);
      assert NumberedKey(r, n) in keys[..i];
      assert NumberedKey(r, n) in keys;
    }
  }

  lemma KeepsWithoutGap(b: Table, o: Table, t: Table)
    requires Join(b, o, t).Some? && GapFree(Join(b, o, t).value)
    ensures forall r, n: nat ::
      MergeKey(b, o, t, NumberedKey(r, n + 1)).Keep? ==> MergeKey(b, o, t, NumberedKey(r, n)).Keep?
  {
    hide MergeKey, NumberedKey, Join;
    var m := Join(b, o, t).value;
    forall r, n: nat | MergeKey(b, o, t, NumberedKey(r, n + 1)).Keep?
      ensures MergeKey(b, o, t, NumberedKey(r, n)).Keep?
    {
      GetJoin(b, o, t, NumberedKey(r, n + 1));
      assert NumberedKey(r, n + 1) in m;
      GetJoin(b, o, t, NumberedKey(r, n));
    }
  }

  /** A merged list is keyed to the joined table again exactly when no numbered key lost the number before it. */
  lemma RekeyedIffGapFree(base: seq<Row>, ours: seq<Row>, theirs: seq<Row>)
    requires Unmarked(base) && Unmarked(ours) && Unmarked(theirs) && MergeRows(base, ours, theirs).Some?
    ensures var j := Join(Keyed(base), Keyed(ours), Keyed(theirs));
      j.Some? && (Keyed(MergeRows(base, ours, theirs).value) == j.value <==> GapFree(j.value))
  {
    hide *;
    MergeRowsLists(base, ours, theirs);
    var b, o, t := Keyed(base), Keyed(ours), Keyed(theirs);
    var rows, m, kept := MergeRows(base, ours, theirs).value, Join(b, o, t).value, KeptKeyOrder(base, ours, theirs);
    KeysSpelt(base);
    KeysSpelt(ours);
    KeysSpelt(theirs);
    JoinKeysSpellFirst(b, o, t);
    SpelledList(rows, m, kept);
    KeysSpelt(rows);
    if GapFree(m) {
      KeepsWithoutGap(b, o, t);
      KeyOrderInOrder(base, ours, theirs);
      KeptKeysInOrder(base, ours, theirs);
      AllRekeyed(rows, kept);
      KeyedAgain(rows, m, kept);
    }
  }

  lemma KeptKeysInOrder(base: seq<Row>, ours: seq<Row>, theirs: seq<Row>)
    requires NumbersInOrder(KeyOrder(base, ours, theirs))
    requires Join(Keyed(base), Keyed(ours), Keyed(theirs)).Some?
    requires GapFree(Join(Keyed(base), Keyed(ours), Keyed(theirs)).value)
    ensures NumbersInOrder(KeptKeyOrder(base, ours, theirs))
  {
    hide Join, Keyed, KeyOrder, NumbersInOrder, GapFree, KeptOf, MergeKey, NumberedKey;
    KeepsWithoutGap(Keyed(base), Keyed(ours), Keyed(theirs));
    KeptInOrder(Keyed(base), Keyed(ours), Keyed(theirs), KeyOrder(base, ours, theirs));
  }

  lemma AllRekeyed(rows: seq<Row>, kept: seq<string>)
    requires KeptUnderOwn(rows, kept) && Distinct(kept) && NumbersInOrder(kept)
    ensures |rows| == |kept| && forall i :: 0 <= i < |rows| ==> KeyAt(rows, i) == kept[i]
  {
    hide Distinct, NumbersInOrder, KeyAt;
    if rows != [] {
      RekeyedAt(rows, kept, |rows| - 1);
    }
  }

  // ---- the condition in terms of the three lists ----

  /** How many rows start with the cell. */
  function Total(rows: seq<Row>, cell: string): nat {
    Occurrences(rows, |rows|, cell)
  }

  /** One side has fewer rows with this first cell than the base, and the other more. */
  predicate LostAndGained(base: seq<Row>, ours: seq<Row>, theirs: seq<Row>, cell: string) {
    || Total(ours, cell) < Total(base, cell) < Total(theirs, cell)
    || Total(theirs, cell) < Total(base, cell) < Total(ours, cell)
  }

  ghost predicate NeverLostAndGained(base: seq<Row>, ours: seq<Row>, theirs: seq<Row>) {
    forall cell :: !LostAndGained(base, ours, theirs, cell)
  }

  lemma {:induction false} RowNumbered(rows: seq<Row>, m: nat, cell: string, n: nat) returns (i: nat)
    requires m <= |rows| && n < Occurrences(rows, m, cell)
    ensures i < m && First(rows[i]) == cell && Occurrences(rows, i, cell) == n
  {
    if First(rows[m - 1]) == cell && Occurrences(rows, m - 1, cell) == n {
      i := m - 1;
    } else {
      i := RowNumbered(rows, m - 1, cell, n);
    }
  }

  /** A numbered key is in the table exactly when there are enough rows with its cell. */
  lemma NumberIsKeyed(rows: seq<Row>, cell: string, n: nat)
    requires Unmarked(rows) && (n > 0 || !Occurs(cell, DUP))
    ensures NumberedKey(cell, n) in Keyed(rows) <==> n < Total(rows, cell)
  {
    hide NumberedKey, Occurs;
    KeyedDomain(rows, |rows|);
    hide KeyAt, KeyedUpTo;
    if NumberedKey(cell, n) in Keyed(rows) {
      var i :| 0 <= i < |rows| && KeyAt(rows, i) == NumberedKey(cell, n);
      KeyAtIs(rows, i);
      NumberedKeyDecides(First(rows[i]), Occurrences(rows, i, First(rows[i])), cell, n);
      OccurrencesGrow(rows, i, |rows|, cell);
    }
    if n < Total(rows, cell) {
      var i := RowNumbered(rows, |rows|, cell, n);
      KeyAtIs(rows, i);
    }
  }

  /** Which keys a join without conflict keeps. */
  lemma JoinHasKey(b: Table, o: Table, t: Table, k: string)
    requires Join(b, o, t).Some?
    ensures k in Join(b, o, t).value <==> (k in o && k in t) || (k !in b && (k in o || k in t))
  {
    GetJoin(b, o, t, k);
    assert MergeKey(b, o, t, k) != Conflict;
    hide CellsMerge, MergedCells, Join;
  }

  /** A number is kept that both sides have, or that one side has and the base has not. */
  predicate KeepsNumber(base: nat, ours: nat, theirs: nat, n: nat) {
    (n < ours && n < theirs) || (base <= n && (n < ours || n < theirs))
  }

  lemma NumberIsJoined(base: seq<Row>, ours: seq<Row>, theirs: seq<Row>, cell: string, n: nat)
    requires Unmarked(base) && Unmarked(ours) && Unmarked(theirs) && (n > 0 || !Occurs(cell, DUP))
    requires Join(Keyed(base), Keyed(ours), Keyed(theirs)).Some?
    ensures NumberedKey(cell, n) in Join(Keyed(base), Keyed(ours), Keyed(theirs)).value <==>
            KeepsNumber(Total(base, cell), Total(ours, cell), Total(theirs, cell), n)
  {
    hide *;
    NumberIsKeyed(base, cell, n);
    NumberIsKeyed(ours, cell, n);
    NumberIsKeyed(theirs, cell, n);
    JoinHasKey(Keyed(base), Keyed(ours), Keyed(theirs), NumberedKey(cell, n));
    KeepsNumberIs(Total(base, cell), Total(ours, cell), Total(theirs, cell), n);
  }

  lemma KeepsNumberIs(base: nat, ours: nat, theirs: nat, n: nat)
    ensures KeepsNumber(base, ours, theirs, n) <==>
            (n < ours && n < theirs) || (!(n < base) && (n < ours || n < theirs))
  {
  }

  lemma {:induction false} MarkedHasNoRows(rows: seq<Row>, n: nat, cell: string)
    requires Unmarked(rows) && Occurs(cell, DUP) && n <= |rows|
    ensures Occurrences(rows, n, cell) == 0
  {
    hide Occurs;
    if n > 0 {
      MarkedHasNoRows(rows, n - 1, cell);
    }
  }

  lemma MarkedIsNeverLost(base: seq<Row>, ours: seq<Row>, theirs: seq<Row>, cell: string)
    requires Unmarked(base) && Occurs(cell, DUP)
    ensures !LostAndGained(base, ours, theirs, cell)
  {
    hide Occurs, Unmarked;
    MarkedHasNoRows(base, |base|, cell);
  }

  /** The joined table has no gap exactly when no first cell lost rows on one side and gained rows on the other. */
  lemma GapFreeIff(base: seq<Row>, ours: seq<Row>, theirs: seq<Row>)
    requires Unmarked(base) && Unmarked(ours) && Unmarked(theirs)
    requires Join(Keyed(base), Keyed(ours), Keyed(theirs)).Some?
    ensures GapFree(Join(Keyed(base), Keyed(ours), Keyed(theirs)).value) <==> NeverLostAndGained(base, ours, theirs)
  {
    hide Unmarked, Keyed, Join, NumberedKey, Occurs, Total;
    var m := Join(Keyed(base), Keyed(ours), Keyed(theirs)).value;
    if NeverLostAndGained(base, ours, theirs) {
      forall r, n: nat | NumberedKey(r, n + 1) in m
        ensures NumberedKey(r, n) in m
      {
        assert !LostAndGained(base, ours, theirs, r);
        NumberIsJoined(base, ours, theirs, r, n + 1);
        if Occurs(r, DUP) {
          MarkedIsNotJoined(base, ours, theirs, r, n + 1);
        } else {
          NumberIsJoined(base, ours, theirs, r, n);
        }
      }
    }
    if GapFree(m) {
      forall r
        ensures !LostAndGained(base, ours, theirs, r)
      {
        if Occurs(r, DUP) {
          MarkedIsNeverLost(base, ours, theirs, r);
        } else {
          NothingLost(base, ours, theirs, r);
        }
      }
    }
  }

  lemma MarkedIsNotJoined(base: seq<Row>, ours: seq<Row>, theirs: seq<Row>, cell: string, n: nat)
    requires Unmarked(ours) && Unmarked(theirs) && Occurs(cell, DUP)
    ensures !KeepsNumber(Total(base, cell), Total(ours, cell), Total(theirs, cell), n)
  {
    hide Unmarked, Occurs;
    MarkedHasNoRows(ours, |ours|, cell);
    MarkedHasNoRows(theirs, |theirs|, cell);
  }

  lemma NothingLost(base: seq<Row>, ours: seq<Row>, theirs: seq<Row>, cell: string)
    requires Unmarked(base) && Unmarked(ours) && Unmarked(theirs) && !Occurs(cell, DUP)
    requires Join(Keyed(base), Keyed(ours), Keyed(theirs)).Some?
    requires GapFree(Join(Keyed(base), Keyed(ours), Keyed(theirs)).value)
    ensures !LostAndGained(base, ours, theirs, cell)
  {
    hide Unmarked, Keyed, Join, NumberedKey, Occurs, Total;
    var nb := Total(base, cell);
    if nb > 0 {
      NumberIsJoined(base, ours, theirs, cell, nb);
      NumberIsJoined(base, ours, theirs, cell, nb - 1);
      assert NumberedKey(cell, (nb - 1) + 1) == NumberedKey(cell, nb);
    }
  }

  /**
   * A merged list is keyed to the joined table again exactly when no first cell lost rows on one side and gained
   * rows on the other.
   */
  lemma RekeyedIff(base: seq<Row>, ours: seq<Row>, theirs: seq<Row>)
    requires Unmarked(base) && Unmarked(ours) && Unmarked(theirs) && MergeRows(base, ours, theirs).Some?
    ensures var j := Join(Keyed(base), Keyed(ours), Keyed(theirs));
      j.Some? && (Keyed(MergeRows(base, ours, theirs).value) == j.value <==> NeverLostAndGained(base, ours, theirs))
  {
    hide *;
    RekeyedIffGapFree(base, ours, theirs);
    GapFreeIff(base, ours, theirs);
  }

  // ---- the order of merged rows ----

  lemma {:induction false} DedupByPlace(keys: seq<string>)
    ensures ByPlace(keys, Dedup(keys))
  {
    hide ByPlace;
    if keys == [] {
      NothingByPlace(keys);
    } else {
      var init, k := keys[..|keys| - 1], keys[|keys| - 1];
      assert keys == init + [k];
      DedupByPlace(init);
      AppendByPlace(init, k, Dedup(init));
    }
  }

  /** Fewer items of an ordered list are in order. */
  lemma {:induction false} KeptByPlace(b: Table, o: Table, t: Table, all: seq<string>, keys: seq<string>)
    requires ByPlace(all, keys)
    ensures ByPlace(all, KeptOf(b, o, t, keys))
  {
    hide ByPlace, MergeKey;
    if keys != [] {
      var init, k := keys[..|keys| - 1], keys[|keys| - 1];
      assert keys == init + [k];
      LastStandsLast(all, init, k);
      KeptByPlace(b, o, t, all, init);
      var kept := KeptOf(b, o, t, init);
      assert AllBefore(all, kept, k);
      OneMoreByPlace(all, kept, k);
      assert kept + [] == kept;
    }
  }

  /**
   * Rows are listed in the order of their keys: those of the base first, then those new in ours, then those new in
   * theirs, each in the order of its own list.
   */
  lemma RowsInSourceOrder(base: seq<Row>, ours: seq<Row>, theirs: seq<Row>)
    requires MergeRows(base, ours, theirs).Some?
    ensures exists kept: seq<string>, m: Table ::
      && ListsBy(MergeRows(base, ours, theirs).value, m, kept)
      && InSourceOrder(Keys(base), Keys(ours), Keys(theirs), kept)
  {
    hide MergeRows, Keyed, Keys, Dedup, ByPlace, InSourceOrder, ListsBy, Lists, Join, KeptOf;
    MergeRowsLists(base, ours, theirs);
    var all := Keys(base) + Keys(ours) + Keys(theirs);
    DedupByPlace(all);
    KeptByPlace(Keyed(base), Keyed(ours), Keyed(theirs), all, KeyOrder(base, ours, theirs));
    var kept := KeptKeyOrder(base, ours, theirs);
    SourceOrder(Keys(base), Keys(ours), Keys(theirs), kept);
    assert ListsBy(MergeRows(base, ours, theirs).value, Join(Keyed(base), Keyed(ours), Keyed(theirs)).value, kept);
  }
}
