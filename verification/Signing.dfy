/** The bytes of a patch that its signature covers: what they ignore and what they fix. */
module Signing {
  import opened Wrappers
  import opened Bytes
  import opened HexForm
  import opened Sorting

  // ---- the order of byte strings ----

  predicate LexLe(a: Bytes, b: Bytes) {
    a == [] || (b != [] && (a[0] < b[0] || (a[0] == b[0] && LexLe(a[1..], b[1..]))))
  }

  lemma {:induction false} LexTotal(a: Bytes, b: Bytes)
    ensures LexLe(a, b) || LexLe(b, a)
  {
    if a != [] && b != [] && a[0] == b[0] {
      LexTotal(a[1..], b[1..]);
    }
  }

  lemma {:induction false} LexAntisymmetric(a: Bytes, b: Bytes)
    requires LexLe(a, b) && LexLe(b, a)
    ensures a == b
  {
    if a != [] {
      LexAntisymmetric(a[1..], b[1..]);
      assert a == [a[0]] + a[1..] && b == [b[0]] + b[1..];
    }
  }

  lemma {:induction false} LexTransitive(a: Bytes, b: Bytes, c: Bytes)
    requires LexLe(a, b) && LexLe(b, c)
    ensures LexLe(a, c)
  {
    if a != [] && a[0] == b[0] == c[0] {
      LexTransitive(a[1..], b[1..], c[1..]);
    }
  }

  lemma LexIsTotalOrder()
    ensures TotalOrder(LexLe)
  {
    forall a, b
      ensures LexLe(a, b) || LexLe(b, a)
      ensures LexLe(a, b) && LexLe(b, a) ==> a == b
    {
      LexTotal(a, b);
      if LexLe(a, b) && LexLe(b, a) {
        LexAntisymmetric(a, b);
      }
    }
    forall a, b, c | LexLe(a, b) && LexLe(b, c)
      ensures LexLe(a, c)
    {
      LexTransitive(a, b, c);
    }
  }

  /** Parents are compared by their hex text. */
  predicate HexLe(a: Digest, b: Digest) {
    LexLe(HexOf(a), HexOf(b))
  }

  /** Comparing the text is comparing the bytes: lower-case hex keeps the order. */
  lemma {:induction false} HexKeepsOrder(a: Bytes, b: Bytes)
    ensures LexLe(HexOf(a), HexOf(b)) <==> LexLe(a, b)
  {
    if a != [] && b != [] {
      var x, y := HexOf(a), HexOf(b);
      assert x[1..][0] == x[1] && y[1..][0] == y[1];
      assert x[1..][1..] == x[2..] == HexOf(a[1..]) && y[1..][1..] == y[2..] == HexOf(b[1..]);
      assert LexLe(x, y) <==> x[0] < y[0] || (x[0] == y[0] && (x[1] < y[1] || (x[1] == y[1] && LexLe(x[2..], y[2..]))));
      HexKeepsOrder(a[1..], b[1..]);
    }
  }

  lemma HexIsTotalOrder()
    ensures TotalOrder(HexLe)
  {
    forall a: Digest, b: Digest
      ensures HexLe(a, b) || HexLe(b, a)
      ensures HexLe(a, b) && HexLe(b, a) ==> a == b
    {
      LexTotal(HexOf(a), HexOf(b));
      if HexLe(a, b) && HexLe(b, a) {
        LexAntisymmetric(HexOf(a), HexOf(b));
        HexInjective(a, b);
      }
    }
    forall a: Digest, b: Digest, c: Digest | HexLe(a, b) && HexLe(b, c)
      ensures HexLe(a, c)
    {
      LexTransitive(HexOf(a), HexOf(b), HexOf(c));
    }
  }

  // ---- the bytes ----

  datatype Patch = Patch(
    operationType: Bytes, touchSet: seq<Bytes>, targetPath: Option<Bytes>, payload: Bytes,
    parentIds: seq<Digest>, author: Bytes, message: Bytes, timestamp: nat)

  function PathBytes(path: Option<Bytes>): Bytes {
    if path.Some? then path.value else [0xFF]
  }

  function Strings(ss: seq<Bytes>): Bytes {
    if ss == [] then [] else Terminated(ss[0]) + Strings(ss[1..])
  }

  function Hexes(hs: seq<Digest>): seq<Bytes> {
    seq(|hs|, i requires 0 <= i < |hs| => HexOf(hs[i]))
  }

  function Closing(p: Patch): Bytes {
    U64(p.timestamp) + ([0] + (Terminated(p.author) + p.message))
  }

  function Middle(p: Patch): Bytes {
    Terminated(PathBytes(p.targetPath)) + (U64(|p.payload|) + p.payload)
  }

  /** The whole encoding, with the touch set and the parents in the order given. */
  function Encoded(p: Patch): Bytes {
    Terminated(p.operationType) + (Strings(p.touchSet) + (Middle(p) + (Strings(Hexes(p.parentIds)) + Closing(p))))
  }

  /** The patch with its touch set and its parents in order. */
  function Normal(p: Patch): Patch {
    p.(touchSet := Sort(LexLe, p.touchSet), parentIds := Sort(HexLe, p.parentIds))
  }

  lemma {:induction false} StringsAppend(ss: seq<Bytes>, s: Bytes)
    ensures Strings(ss + [s]) == Strings(ss) + Terminated(s)
  {
    if ss == [] {
      assert [s][1..] == [];
    } else {
      assert (ss + [s])[1..] == ss[1..] + [s];
      StringsAppend(ss[1..], s);
    }
  }

  method AppendStrings(buf: Bytes, ss: seq<Bytes>) returns (r: Bytes)
    ensures r == buf + Strings(ss)
  {
    r := buf;
    for i := 0 to |ss|
      invariant r == buf + Strings(ss[..i])
    {
      assert ss[..i + 1] == ss[..i] + [ss[i]];
      StringsAppend(ss[..i], ss[i]);
      r := r + ss[i];
      r := r + [0];
      assert r == buf + (Strings(ss[..i]) + Terminated(ss[i]));
    }
    assert ss[..|ss|] == ss;
  }

  method CanonicalPatchBytes(p: Patch) returns (buf: Bytes)
    ensures buf == Encoded(Normal(p))
  {
    hide U64, Strings, Sort;
    buf := p.operationType;
    buf := buf + [0];
    var sortedTouches := Sort(LexLe, p.touchSet);
    buf := AppendStrings(buf, sortedTouches);
    buf := buf + PathBytes(p.targetPath);
    buf := buf + [0];
    buf := buf + U64(|p.payload|);
    buf := buf + p.payload;
    var sortedParents := Sort(HexLe, p.parentIds);
    buf := AppendStrings(buf, Hexes(sortedParents));
    buf := buf + U64(p.timestamp);
    buf := buf + [0];
    buf := buf + p.author;
    buf := buf + [0];
    buf := buf + p.message;
  }

  // ---- what the bytes ignore ----

  /** The same patch up to the order of its touch set and of its parents. */
  ghost predicate SameUpToOrder(p: Patch, q: Patch) {
    && multiset(p.touchSet) == multiset(q.touchSet) && multiset(p.parentIds) == multiset(q.parentIds)
    && p == q.(touchSet := p.touchSet, parentIds := p.parentIds)
  }

  /** Sorting forgets exactly the order. */
  lemma NormalIff(p: Patch, q: Patch)
    ensures Normal(p) == Normal(q) <==> SameUpToOrder(p, q)
  {
    if SameUpToOrder(p, q) {
      LexIsTotalOrder();
      HexIsTotalOrder();
      SortOfPermutation(LexLe, p.touchSet, q.touchSet);
      SortOfPermutation(HexLe, p.parentIds, q.parentIds);
    }
    if Normal(p) == Normal(q) {
      hide Sort;
      assert multiset(p.touchSet) == multiset(Normal(p).touchSet) == multiset(q.touchSet);
      assert multiset(p.parentIds) == multiset(Normal(p).parentIds) == multiset(q.parentIds);
      assert p == Normal(p).(touchSet := p.touchSet, parentIds := p.parentIds);
      assert q == Normal(q).(touchSet := q.touchSet, parentIds := q.parentIds);
    }
  }

  // ---- what the bytes fix ----

  /** Text without NUL, a path without the 0xFF that marks its absence (UTF-8 has none), 64-bit numbers. */
  ghost predicate Clean(p: Patch) {
    && NoNul(p.operationType) && NoNul(p.author)
    && (forall t :: t in p.touchSet ==> NoNul(t))
    && (p.targetPath.Some? ==> NoNul(p.targetPath.value) && 0xFF !in p.targetPath.value)
    && |p.payload| < U64_LIMIT && p.timestamp < U64_LIMIT
  }

  lemma {:induction false} SplitStrings(ss: seq<Bytes>, x: Bytes, ts: seq<Bytes>, y: Bytes)
    requires |ss| == |ts| && Strings(ss) + x == Strings(ts) + y
    requires (forall s :: s in ss ==> NoNul(s)) && (forall t :: t in ts ==> NoNul(t))
    ensures ss == ts && x == y
  {
    if ss != [] {
      hide NoNul;
      var a, b := Strings(ss[1..]) + x, Strings(ts[1..]) + y;
      assert Strings(ss) + x == Terminated(ss[0]) + a;
      assert Strings(ts) + y == Terminated(ts[0]) + b;
      SplitAtNul(ss[0], a, ts[0], b);
      SplitStrings(ss[1..], x, ts[1..], y);
      assert ss == [ss[0]] + ss[1..] && ts == [ts[0]] + ts[1..];
    } else {
      assert Strings(ss) + x == x && Strings(ts) + y == y;
    }
  }

  lemma {:induction false} HexHasNoNul(bytes: Bytes)
    ensures NoNul(HexOf(bytes))
  {
    if bytes != [] {
      HexHasNoNul(bytes[1..]);
      assert HexChar(bytes[0] / 16) > 0 && HexChar(bytes[0] % 16) > 0;
    }
  }

  lemma HexesAhead(hs: seq<Digest>, x: Bytes)
    requires hs != []
    ensures Strings(Hexes(hs)) + x == Terminated(HexOf(hs[0])) + (Strings(Hexes(hs[1..])) + x)
    ensures NoNul(HexOf(hs[0])) && |HexOf(hs[0])| == 64
  {
    HexHasNoNul(hs[0]);
    hide HexOf, NoNul;
    assert Hexes(hs)[1..] == Hexes(hs[1..]);
  }

  /** The ninth byte tells what follows: a hex digit of one more parent, or the NUL behind the timestamp. */
  lemma NoParentIsClosing(hs: seq<Digest>, x: Bytes, p: Patch)
    requires hs != []
    ensures Strings(Hexes(hs)) + x != Closing(p)
  {
    hide HexOf, U64, Strings, Hexes;
    HexesAhead(hs, x);
    assert Closing(p)[8] == 0;
    assert (Strings(Hexes(hs)) + x)[8] == HexOf(hs[0])[8] && HexOf(hs[0])[8] in HexOf(hs[0]);
  }

  lemma {:induction false} SplitParents(hs: seq<Digest>, p: Patch, ks: seq<Digest>, q: Patch)
    requires Strings(Hexes(hs)) + Closing(p) == Strings(Hexes(ks)) + Closing(q)
    ensures hs == ks && Closing(p) == Closing(q)
  {
    assert Strings(Hexes([])) == [];
    hide Strings, Hexes, Closing, HexOf, NoNul;
    if hs != [] && ks != [] {
      HexesAhead(hs, Closing(p));
      HexesAhead(ks, Closing(q));
      var x, y := Strings(Hexes(hs[1..])) + Closing(p), Strings(Hexes(ks[1..])) + Closing(q);
      SplitAtNul(HexOf(hs[0]), x, HexOf(ks[0]), y);
      HexInjective(hs[0], ks[0]);
      SplitParents(hs[1..], p, ks[1..], q);
      assert hs == [hs[0]] + hs[1..] && ks == [ks[0]] + ks[1..];
    } else if hs != [] {
      NoParentIsClosing(hs, Closing(p), q);
    } else if ks != [] {
      NoParentIsClosing(ks, Closing(q), p);
    } else {
      assert Strings(Hexes(hs)) + Closing(p) == Closing(p);
      assert Strings(Hexes(ks)) + Closing(q) == Closing(q);
    }
  }

  lemma SplitMiddle(p: Patch, x: Bytes, q: Patch, y: Bytes)
    requires Clean(p) && Clean(q) && Middle(p) + x == Middle(q) + y
    ensures p.targetPath == q.targetPath && p.payload == q.payload && x == y
  {
    hide U64;
    var a, b := U64(|p.payload|) + (p.payload + x), U64(|q.payload|) + (q.payload + y);
    assert Middle(p) + x == Terminated(PathBytes(p.targetPath)) + a;
    assert Middle(q) + y == Terminated(PathBytes(q.targetPath)) + b;
    SplitAtNul(PathBytes(p.targetPath), a, PathBytes(q.targetPath), b);
    assert [0xFF][0] == 0xFF && forall s: Bytes :: s == [0xFF] ==> 0xFF in s;
    SplitAtLength(U64(|p.payload|), p.payload + x, U64(|q.payload|), q.payload + y);
    U64Injective(|p.payload|, |q.payload|);
    SplitAtLength(p.payload, x, q.payload, y);
  }

  lemma SplitClosing(p: Patch, q: Patch)
    requires Clean(p) && Clean(q) && Closing(p) == Closing(q)
    ensures p.timestamp == q.timestamp && p.author == q.author && p.message == q.message
  {
    hide U64;
    var a, b := Terminated(p.author) + p.message, Terminated(q.author) + q.message;
    SplitAtLength(U64(p.timestamp), [0] + a, U64(q.timestamp), [0] + b);
    U64Injective(p.timestamp, q.timestamp);
    SplitAtLength([0], a, [0], b);
    SplitAtNul(p.author, p.message, q.author, q.message);
  }

  lemma EncodedDecides(p: Patch, q: Patch)
    requires Clean(p) && Clean(q) && |p.touchSet| == |q.touchSet|
    requires Encoded(p) == Encoded(q)
    ensures p == q
  {
    hide Middle, Closing, Strings, Hexes, NoNul;
    var hp, hq := Strings(Hexes(p.parentIds)) + Closing(p), Strings(Hexes(q.parentIds)) + Closing(q);
    var mp, mq := Middle(p) + hp, Middle(q) + hq;
    SplitAtNul(p.operationType, Strings(p.touchSet) + mp, q.operationType, Strings(q.touchSet) + mq);
    SplitStrings(p.touchSet, mp, q.touchSet, mq);
    SplitMiddle(p, hp, q, hq);
    SplitParents(p.parentIds, p, q.parentIds, q);
    SplitClosing(p, q);
  }

  lemma NormalIsClean(p: Patch)
    requires Clean(p)
    ensures Clean(Normal(p))
    ensures |Normal(p).touchSet| == |p.touchSet|
  {
    hide Sort, NoNul;
    SameMembers(Normal(p).touchSet, p.touchSet);
  }

  /**
   * For clean patches with as many touches, equal bytes mean the same patch up to the order of touches and
   * parents, and no other difference is ignored.
   */
  lemma SignedBytesDecide(p: Patch, q: Patch)
    requires Clean(p) && Clean(q) && |p.touchSet| == |q.touchSet|
    ensures Encoded(Normal(p)) == Encoded(Normal(q)) <==> SameUpToOrder(p, q)
  {
    NormalIff(p, q);
    NormalIsClean(p);
    NormalIsClean(q);
    hide Encoded, Normal, Clean, SameUpToOrder;
    if Encoded(Normal(p)) == Encoded(Normal(q)) {
      EncodedDecides(Normal(p), Normal(q));
    }
  }

  /** Two clean patches that are signed alike are the same up to order exactly when they have as many touches. */
  lemma SignedAlikeIff(p: Patch, q: Patch)
    requires Clean(p) && Clean(q) && Encoded(Normal(p)) == Encoded(Normal(q))
    ensures SameUpToOrder(p, q) <==> |p.touchSet| == |q.touchSet|
  {
    hide Encoded, Normal, Clean;
    if |p.touchSet| == |q.touchSet| {
      SignedBytesDecide(p, q);
    }
    if SameUpToOrder(p, q) {
      SameMembers(p.touchSet, q.touchSet);
    }
  }

  /** Any reordering of the touch set and of the parents is signed with the same bytes. */
  lemma OrderIsIgnored(p: Patch, touches: seq<Bytes>, parents: seq<Digest>)
    requires multiset(touches) == multiset(p.touchSet) && multiset(parents) == multiset(p.parentIds)
    ensures Encoded(Normal(p.(touchSet := touches, parentIds := parents))) == Encoded(Normal(p))
  {
    NormalIff(p.(touchSet := touches, parentIds := parents), p);
  }

  // ---- what the bytes leave open: where the touches end ----

  /** Touches `ts` and `a`, the path ":", no payload, one parent. */
  function WithTouch(op: Bytes, ts: seq<Bytes>, a: Bytes, h: Digest, author: Bytes, message: Bytes): Patch {
    Patch(op, ts + [a], Some([58]), [], [h], author, message, 0)
  }

  const EIGHT_ZEROS: Bytes := [0, 0, 0, 0, 0, 0, 0, 0]

  /** Touches `ts`, the path `a`, most of the parent's hex form as payload and the rest as timestamp. */
  function WithPath(op: Bytes, ts: seq<Bytes>, a: Bytes, h: Digest, author: Bytes, message: Bytes): Patch {
    var hex := HexOf(h);
    Patch(op, ts, Some(a), [0, 0] + hex[..56], [], [], EIGHT_ZEROS + Terminated(author) + message, Spelled(hex[56..]))
  }

  lemma SmallNumbers()
    ensures U64(0) == EIGHT_ZEROS && U64(58) == [58, 0, 0, 0, 0, 0, 0, 0]
  {
    assert LittleEndian(0, 4) == [0, 0, 0, 0];
    assert LittleEndian(0, 8) == [0, 0, 0, 0] + LittleEndian(0, 4);
    assert LittleEndian(0, 7) == [0, 0, 0] + LittleEndian(0, 4);
  }

  /** What follows the touches `ts` in both encodings. */
  function Tail(a: Bytes, hex: Bytes, rest: Bytes): Bytes {
    Terminated(a) + ([58, 0] + (EIGHT_ZEROS + (hex + ([0] + (EIGHT_ZEROS + ([0] + rest))))))
  }

  lemma TouchTail(op: Bytes, ts: seq<Bytes>, a: Bytes, h: Digest, author: Bytes, message: Bytes)
    ensures var p := WithTouch(op, ts, a, h, author, message);
      Terminated(a) + (Middle(p) + (Strings(Hexes(p.parentIds)) + Closing(p))) ==
      Tail(a, HexOf(h), Terminated(author) + message)
  {
    var p := WithTouch(op, ts, a, h, author, message);
    var hex, rest := HexOf(h), Terminated(author) + message;
    SmallNumbers();
    SmallTerminated();
    assert Hexes(p.parentIds) == [hex] && Strings([hex]) == hex + [0];
    hide HexOf, U64, Strings, Hexes, Terminated;
    assert Closing(p) == EIGHT_ZEROS + ([0] + rest);
    assert Middle(p) == [58, 0] + EIGHT_ZEROS;
    ShiftTouch(hex, EIGHT_ZEROS + ([0] + rest));
  }

  lemma SmallTerminated()
    ensures Terminated([58]) == [58, 0] && Terminated([]) == [0]
  {
  }

  lemma ShiftTouch(hex: Bytes, x: Bytes)
    ensures [58, 0] + EIGHT_ZEROS + (hex + [0] + x) == [58, 0] + (EIGHT_ZEROS + (hex + ([0] + x)))
  {
  }

  lemma PathTail(op: Bytes, ts: seq<Bytes>, a: Bytes, h: Digest, author: Bytes, message: Bytes)
    ensures var q := WithPath(op, ts, a, h, author, message);
      Middle(q) + (Strings(Hexes(q.parentIds)) + Closing(q)) == Tail(a, HexOf(h), Terminated(author) + message)
  {
    var q := WithPath(op, ts, a, h, author, message);
    var hex, rest := HexOf(h), Terminated(author) + message;
    SmallNumbers();
    U64Spelled(hex[56..]);
    assert Strings(Hexes(q.parentIds)) == [];
    SmallTerminated();
    hide HexOf, U64, Strings, Hexes, Spelled, Terminated;
    assert q.message == EIGHT_ZEROS + rest;
    assert Middle(q) == Terminated(a) + ([58, 0, 0, 0, 0, 0, 0, 0] + ([0, 0] + hex[..56]));
    assert Closing(q) == hex[56..] + ([0] + ([0] + (EIGHT_ZEROS + rest)));
    ShiftPath(Terminated(a), hex, EIGHT_ZEROS + rest, rest);
  }

  lemma ShiftPath(a: Bytes, hex: Bytes, x: Bytes, rest: Bytes)
    requires |hex| == 64 && x == EIGHT_ZEROS + rest
    ensures a + ([58, 0, 0, 0, 0, 0, 0, 0] + ([0, 0] + hex[..56])) + ([] + (hex[56..] + ([0] + ([0] + x)))) ==
            a + ([58, 0] + (EIGHT_ZEROS + (hex + ([0] + (EIGHT_ZEROS + ([0] + rest))))))
  {
    assert hex == hex[..56] + hex[56..];
    assert [0] + x == EIGHT_ZEROS + ([0] + rest);
    var y := [0] + ([0] + x);
    assert [58, 0, 0, 0, 0, 0, 0, 0] + [0, 0] == [58, 0] + EIGHT_ZEROS;
    Regroup(a, [58, 0, 0, 0, 0, 0, 0, 0], [0, 0], hex[..56], hex[56..], y);
    Regroup(a, [58, 0], EIGHT_ZEROS, hex[..56], hex[56..], y);
  }

  lemma Regroup(a: Bytes, b: Bytes, c: Bytes, d: Bytes, e: Bytes, f: Bytes)
    ensures a + (b + (c + d)) + ([] + (e + f)) == a + ((b + c) + (d + e + f))
    ensures a + (b + (c + (d + e + f))) == a + ((b + c) + (d + e + f))
  {
  }

  lemma SameEncoded(op: Bytes, ts: seq<Bytes>, a: Bytes, h: Digest, author: Bytes, message: Bytes)
    ensures Encoded(WithTouch(op, ts, a, h, author, message)) == Encoded(WithPath(op, ts, a, h, author, message))
  {
    hide Middle, Closing, Strings, Hexes, HexOf, Terminated, Spelled;
    TouchTail(op, ts, a, h, author, message);
    PathTail(op, ts, a, h, author, message);
    StringsAppend(ts, a);
  }

  lemma GreatestStaysLast(ts: seq<Bytes>, a: Bytes)
    requires forall t :: t in ts ==> LexLe(t, a)
    ensures Sort(LexLe, ts + [a]) == Sort(LexLe, ts) + [a]
  {
    LexIsTotalOrder();
    SortOrdered(LexLe, ts);
    SortOrdered(LexLe, ts + [a]);
    SameMembers(Sort(LexLe, ts), ts);
    hide Sort, LexLe;
    OrderedUnique(LexLe, Sort(LexLe, ts + [a]), Sort(LexLe, ts) + [a]);
  }

  /**
   * One signature for two patches: for any operation, touches, author, message and parent there is a patch with
   * one touch more and a patch with one touch less whose signed bytes are the same.
   */
  lemma TouchCountIsOpen(op: Bytes, ts: seq<Bytes>, a: Bytes, h: Digest, author: Bytes, message: Bytes)
    requires Clean(WithTouch(op, ts, a, h, author, message)) && 0xFF !in a && forall t :: t in ts ==> LexLe(t, a)
    ensures var p, q := WithTouch(op, ts, a, h, author, message), WithPath(op, ts, a, h, author, message);
      && Clean(q) && !SameUpToOrder(p, q) && Encoded(Normal(p)) == Encoded(Normal(q))
  {
    OrderedForms(op, ts, a, h, author, message);
    SameEncoded(op, Sort(LexLe, ts), a, h, author, message);
    BothAreClean(op, ts, a, h, author, message);
    hide *;
  }

  lemma OrderedForms(op: Bytes, ts: seq<Bytes>, a: Bytes, h: Digest, author: Bytes, message: Bytes)
    requires forall t :: t in ts ==> LexLe(t, a)
    ensures Normal(WithTouch(op, ts, a, h, author, message)) ==
            WithTouch(op, Sort(LexLe, ts), a, h, author, message)
    ensures Normal(WithPath(op, ts, a, h, author, message)) == WithPath(op, Sort(LexLe, ts), a, h, author, message)
  {
    GreatestStaysLast(ts, a);
    OneParentStays(h);
    hide Sort, HexOf, Spelled;
  }

  lemma BothAreClean(op: Bytes, ts: seq<Bytes>, a: Bytes, h: Digest, author: Bytes, message: Bytes)
    requires Clean(WithTouch(op, ts, a, h, author, message)) && 0xFF !in a
    ensures var p, q := WithTouch(op, ts, a, h, author, message), WithPath(op, ts, a, h, author, message);
      Clean(q) && !SameUpToOrder(p, q)
  {
    U64Spelled(HexOf(h)[56..]);
    hide HexOf, Spelled, U64;
    assert forall t :: t in ts ==> t in ts + [a];
    assert a in ts + [a];
    assert |WithTouch(op, ts, a, h, author, message).payload| == 0;
    assert |WithPath(op, ts, a, h, author, message).payload| == 58;
  }

  lemma OneParentStays(h: Digest)
    ensures Sort(HexLe, [h]) == [h] && Sort(HexLe, []) == []
  {
  }

  // ---- the bytes, written out ----

  /** The order in which a prefix comes first, and else the first byte that differs decides. */
  ghost predicate Precedes(a: Bytes, b: Bytes) {
    a <= b || exists i :: 0 <= i < |a| && i < |b| && a[..i] == b[..i] && a[i] < b[i]
  }

  lemma {:induction false} LexIsPrecedes(a: Bytes, b: Bytes)
    requires LexLe(a, b)
    ensures Precedes(a, b)
  {
    if a != [] && a[0] == b[0] {
      LexIsPrecedes(a[1..], b[1..]);
      assert a == [a[0]] + a[1..] && b == [b[0]] + b[1..];
      if i :| 0 <= i < |a[1..]| && i < |b[1..]| && a[1..][..i] == b[1..][..i] && a[1..][i] < b[1..][i] {
        assert a[..i + 1] == [a[0]] + a[1..][..i] && b[..i + 1] == [b[0]] + b[1..][..i];
        assert a[i + 1] < b[i + 1];
      }
    } else if a != [] {
      assert a[..0] == b[..0];
    }
  }

  ghost predicate Ascending(s: seq<Bytes>) {
    forall i, j :: 0 <= i < j < |s| ==> Precedes(s[i], s[j])
  }

  lemma TouchesInOrder(ts: seq<Bytes>)
    ensures Ascending(Sort(LexLe, ts))
  {
    LexIsTotalOrder();
    SortOrdered(LexLe, ts);
    var r := Sort(LexLe, ts);
    hide LexLe, TotalOrder, Sort, Precedes;
    forall i, j | 0 <= i < j < |r|
      ensures Precedes(r[i], r[j])
    {
      LexIsPrecedes(r[i], r[j]);
    }
  }

  lemma ParentsInOrder(hs: seq<Digest>)
    ensures Ascending(Sort(HexLe, hs))
  {
    HexIsTotalOrder();
    SortOrdered(HexLe, hs);
    var r := Sort(HexLe, hs);
    hide LexLe, TotalOrder, Sort, Precedes, HexOf;
    forall i, j | 0 <= i < j < |r|
      ensures Precedes(r[i], r[j])
    {
      assert HexLe(r[i], r[j]);
      HexKeepsOrder(r[i], r[j]);
      LexIsPrecedes(r[i], r[j]);
    }
  }

  /** Touches and parents are signed in ascending order, each as often as it is given. */
  lemma SignedInOrder(p: Patch)
    ensures multiset(Normal(p).touchSet) == multiset(p.touchSet)
    ensures multiset(Normal(p).parentIds) == multiset(p.parentIds)
    ensures Ascending(Normal(p).touchSet) && Ascending(Normal(p).parentIds)
  {
    hide Ascending;
    TouchesInOrder(p.touchSet);
    ParentsInOrder(p.parentIds);
  }

  /** The bytes of a patch with one touch and one parent, in the order they are written. */
  lemma SpelledOut(
    op: Bytes, t: Bytes, path: Bytes, payload: Bytes, h: Digest, author: Bytes, message: Bytes, time: nat)
    ensures Encoded(Normal(Patch(op, [t], Some(path), payload, [h], author, message, time))) ==
            op + [0] + t + [0] + path + [0] + U64(|payload|) + payload + HexOf(h) + [0]
            + U64(time) + [0] + author + [0] + message
    ensures Encoded(Normal(Patch(op, [], None, payload, [], author, message, time))) ==
            op + [0] + [0xFF] + [0] + U64(|payload|) + payload + U64(time) + [0] + author + [0] + message
  {
    OneOfEach(t, h);
    hide U64, HexOf, Strings, Hexes, Sort;
  }

  lemma OneOfEach(t: Bytes, h: Digest)
    ensures Sort(LexLe, [t]) == [t] && Sort(HexLe, [h]) == [h]
    ensures Strings([t]) == t + [0] && Strings(Hexes([h])) == HexOf(h) + [0]
    ensures Sort(LexLe, []) == [] && Sort(HexLe, []) == [] && Strings([]) == [] && Strings(Hexes([])) == []
  {
    assert Hexes([h]) == [HexOf(h)] && Hexes([]) == [];
    hide HexOf;
    assert [t][1..] == [] && [h][1..] == [];
    assert Sort(LexLe, [t]) == Insert(LexLe, [], t) && Sort(HexLe, [h]) == Insert(HexLe, [], h);
  }
}
