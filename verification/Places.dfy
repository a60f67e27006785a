/** Lists whose items stand in the order in which they first stand in other lists, one behind the other. */
module Places {

  /** The first place of an item in a list, or the length of the list. */
  function Place(list: seq<string>, x: string): (i: nat)
    ensures i <= |list| && (x in list <==> i < |list|) && (i < |list| ==> list[i] == x && x !in list[..i])
  {
    if list == [] then 0 else if list[0] == x then 0 else 1 + Place(list[1..], x)
  }

  /** Of two items of the lists: what the base has comes first, then what ours has, each list in its own order. */
  predicate StandsBefore(base: seq<string>, ours: seq<string>, theirs: seq<string>, x: string, y: string) {
    if x in base then y in base ==> Place(base, x) < Place(base, y)
    else
      && y !in base
      && if x in ours then y in ours ==> Place(ours, x) < Place(ours, y)
         else y !in ours && Place(theirs, x) < Place(theirs, y)
  }

  predicate InSourceOrder(base: seq<string>, ours: seq<string>, theirs: seq<string>, list: seq<string>) {
    forall i, j :: 0 <= i < j < |list| ==> StandsBefore(base, ours, theirs, list[i], list[j])
  }

  /** Items in the order in which they first stand in `all`. */
  predicate ByPlace(all: seq<string>, list: seq<string>) {
    && (forall x :: x in list ==> x in all)
    && forall i, j :: 0 <= i < j < |list| ==> Place(all, list[i]) < Place(all, list[j])
  }

  lemma PlaceUnique(list: seq<string>, x: string, i: nat)
    requires i < |list| && list[i] == x && x !in list[..i]
    ensures Place(list, x) == i
  {
    var p := Place(list, x);
    assert x in list;
    assert forall j :: 0 <= j < i ==> list[..i][j] == list[j];
    assert forall j :: 0 <= j < p ==> list[..p][j] == list[j];
  }

  lemma PlaceInConcat(a: seq<string>, b: seq<string>, x: string)
    requires x in a + b
    ensures Place(a + b, x) == if x in a then Place(a, x) else |a| + Place(b, x)
  {
    if x in a {
      var p := Place(a, x);
      assert (a + b)[..p] == a[..p];
      PlaceUnique(a + b, x, p);
    } else {
      var p := Place(b, x);
      assert (a + b)[..|a| + p] == a + b[..p];
      PlaceUnique(a + b, x, |a| + p);
    }
  }

  lemma StandsBeforeIff(base: seq<string>, ours: seq<string>, theirs: seq<string>, x: string, y: string)
    requires x in base + ours + theirs && y in base + ours + theirs
    ensures Place(base + ours + theirs, x) < Place(base + ours + theirs, y) <==>
            x != y && StandsBefore(base, ours, theirs, x, y)
  {
    PlaceInConcat(base + ours, theirs, x);
    PlaceInConcat(base + ours, theirs, y);
    if x in base + ours {
      PlaceInConcat(base, ours, x);
    }
    if y in base + ours {
      PlaceInConcat(base, ours, y);
    }
  }

  lemma SourceOrder(base: seq<string>, ours: seq<string>, theirs: seq<string>, list: seq<string>)
    requires ByPlace(base + ours + theirs, list)
    ensures InSourceOrder(base, ours, theirs, list)
  {
    hide Place, StandsBefore;
    forall i, j | 0 <= i < j < |list|
      ensures StandsBefore(base, ours, theirs, list[i], list[j])
    {
      StandsBeforeIff(base, ours, theirs, list[i], list[j]);
    }
  }

  lemma AppendByPlace(init: seq<string>, x: string, list: seq<string>)
    requires ByPlace(init, list)
    ensures ByPlace(init + [x], list) && (x !in init ==> ByPlace(init + [x], list + [x]))
  {
    hide Place;
    forall y | y in list
      ensures y in init + [x] && Place(init + [x], y) == Place(init, y)
    {
      PlaceInConcat(init, [x], y);
    }
    assert forall i :: 0 <= i < |list| ==> list[i] in list;
    if x !in init {
      PlaceInConcat(init, [x], x);
      assert forall i :: 0 <= i < |list| ==> Place(init + [x], list[i]) < |init|;
    }
  }

  lemma NothingByPlace(all: seq<string>)
    ensures ByPlace(all, [])
  {
  }

  /** Every item of the list stands before `x` does. */
  predicate AllBefore(all: seq<string>, list: seq<string>, x: string) {
    forall y :: y in list ==> Place(all, y) < Place(all, x)
  }

  lemma LastStandsLast(all: seq<string>, init: seq<string>, k: string)
    requires ByPlace(all, init + [k])
    ensures k in all && ByPlace(all, init) && AllBefore(all, init, k)
  {
    hide Place;
    var keys := init + [k];
    assert keys[|init|] == k && k in keys;
    forall y | y in init
      ensures y in all && Place(all, y) < Place(all, k)
    {
      var i :| 0 <= i < |init| && init[i] == y;
      assert keys[i] == y && y in keys;
    }
    assert forall i :: 0 <= i < |init| ==> keys[i] == init[i];
  }

  lemma OneMoreByPlace(all: seq<string>, list: seq<string>, k: string)
    requires ByPlace(all, list) && k in all && AllBefore(all, list, k)
    ensures ByPlace(all, list + [k])
  {
    hide Place;
    assert forall i :: 0 <= i < |list| ==> list[i] in list;
  }
}
