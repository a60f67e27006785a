/** The merge of properties on lookups: when it fails, which entry counts, and in which order keys are written. */
module PropertiesOrder {
  import opened Wrappers
  import opened Places
  import opened Properties

  /** Base, ours and theirs say three different things about the key, one of them perhaps that it is not there. */
  predicate AllDiffer(base: seq<Entry>, ours: seq<Entry>, theirs: seq<Entry>, key: string) {
    var b, o, t := Get(MapOf(base), key), Get(MapOf(ours), key), Get(MapOf(theirs), key);
    b != o && o != t && b != t
  }

  /** A merge fails exactly when some key is three different things. */
  lemma ConflictingIff(base: seq<Entry>, ours: seq<Entry>, theirs: seq<Entry>)
    ensures Conflicting(base, ours, theirs) <==> exists key :: AllDiffer(base, ours, theirs, key)
  {
    var b, o, t := MapOf(base), MapOf(ours), MapOf(theirs);
    hide MapOf;
    forall key
      ensures AllDiffer(base, ours, theirs, key) <==>
              key in b.Keys + o.Keys + t.Keys && Conflict(Get(b, key), Get(o, key), Get(t, key))
    {
    }
    hide AllDiffer, Conflict;
  }

  /** Of several entries with a key the last one counts. */
  lemma {:induction false} LastEntryCounts(es: seq<Entry>, i: nat)
    requires i < |es| && forall j :: i < j < |es| ==> es[j].key != es[i].key
    ensures Get(MapOf(es), es[i].key) == Some(es[i].value)
    decreases |es|
  {
    if i < |es| - 1 {
      LastEntryCounts(es[..|es| - 1], i);
    }
  }

  lemma {:induction false} NewKeysByPlace(prior: seq<string>, own: seq<string>, es: seq<Entry>, n: nat)
    requires n <= |es| && ByPlace(prior, own) && forall x :: x in own <==> x in prior
    ensures var added := NewKeys(es, n, ToSet(own));
      && ByPlace(prior + KeysOf(es[..n]), own + added)
      && forall x :: x in own + added <==> x in prior + KeysOf(es[..n])
  {
    hide ByPlace;
    if n == 0 {
      assert prior + KeysOf(es[..0]) == prior && own + [] == own;
    } else {
      var init := prior + KeysOf(es[..n - 1]);
      var key, before := es[n - 1].key, NewKeys(es, n - 1, ToSet(own));
      NewKeysByPlace(prior, own, es, n - 1);
      assert prior + KeysOf(es[..n]) == init + [key];
      AppendByPlace(init, key, own + before);
      assert key in own + before <==> key in ToSet(own) || key in before;
      assert own + (before + [key]) == own + before + [key];
    }
  }

  /** Keys are written in the order of ours, and behind them those that only theirs has, in the order of theirs. */
  lemma KeysInSourceOrder(base: seq<Entry>, ours: seq<Entry>, theirs: seq<Entry>)
    ensures InSourceOrder([], KeysOf(ours), KeysOf(theirs), KeysOf(Merged(base, ours, theirs)))
  {
    MergedHasKeys(base, ours, theirs);
    hide ByPlace, InSourceOrder, NewKeys, ToSet, Merged;
    var own := NewKeys(ours, |ours|, {});
    assert ours[..|ours|] == ours && theirs[..|theirs|] == theirs;
    NothingByPlace([]);
    NothingSeen();
    NewKeysByPlace([], [], ours, |ours|);
    assert [] + KeysOf(ours) == KeysOf(ours) && [] + own == own;
    NewKeysByPlace(KeysOf(ours), own, theirs, |theirs|);
    assert [] + KeysOf(ours) + KeysOf(theirs) == KeysOf(ours) + KeysOf(theirs);
    SourceOrder([], KeysOf(ours), KeysOf(theirs), MergedKeys(ours, theirs));
  }

  lemma NothingSeen()
    ensures ToSet([]) == {}
  {
  }

  lemma MergedHasKeys(base: seq<Entry>, ours: seq<Entry>, theirs: seq<Entry>)
    ensures KeysOf(Merged(base, ours, theirs)) == MergedKeys(ours, theirs)
  {
    var keys := MergedKeys(ours, theirs);
    MergedKeysAre(ours, theirs);
    assert forall k :: k in keys ==> k in ToSet(keys);
    ChosenKeys(base, ours, theirs, keys);
    hide MergedKeys;
  }
}
