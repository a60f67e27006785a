/**
 * The daemon's token bucket, over real numbers. Clock readings are inputs: the time at the call and, for
 * each sleep, by how much the runtime wakes up later than asked.
 */
module BandwidthLimiter {

  function Min(a: real, b: real): real { if a <= b then a else b }

  /** The tokens earned in a span of time. */
  function Earned(span: real, rate: nat): real {
    span * rate as real
  }

  lemma EarnedAdds(a: real, b: real, rate: nat)
    ensures Earned(a + b, rate) == Earned(a, rate) + Earned(b, rate)
  {
    assert (a + b) * rate as real == a * rate as real + b * rate as real;
  }

  lemma EarnedSign(a: real, rate: nat)
    requires a >= 0.0
    ensures Earned(a, rate) >= 0.0
  {
  }

  /** The bucket of a positive rate: tokens in it, and the time it was last refilled. */
  datatype Bucket = Bucket(tokens: real, last: real)

  function Refilled(b: Bucket, rate: nat, now: real): Bucket {
    Bucket(Min(b.tokens + Earned(now - b.last, rate), 2.0 * rate as real), now)
  }

  ghost predicate Sound(b: Bucket, rate: nat) {
    0.0 <= b.tokens <= 2.0 * rate as real
  }

  /** The sleep the source computes for a deficit. */
  function Wait(deficit: real, rate: nat): real
    requires rate > 0
  {
    deficit / rate as real
  }

  /** A sleep of the computed length, and any oversleeping, refill the deficit up to the capacity. */
  lemma SleepCoversDeficit(b: Bucket, rate: nat, bytes: nat, late: real)
    requires rate > 0 && late >= 0.0 && b.tokens < bytes as real
    ensures var wait := Wait(bytes as real - b.tokens, rate);
      && wait >= 0.0
      && Refilled(b, rate, b.last + wait + late).tokens == Min(bytes as real + Earned(late, rate), 2.0 * rate as real)
  {
    var wait := Wait(bytes as real - b.tokens, rate);
    assert Earned(wait, rate) == bytes as real - b.tokens;
    EarnedAdds(wait, late, rate);
    assert b.last + wait + late - b.last == wait + late;
  }

  /** Where one sleep leaves a bucket that lacked tokens for a request it can hold. */
  ghost predicate SleptOnce(start: Bucket, rate: nat, bytes: nat, late: real, b: Bucket)
    requires rate > 0
  {
    && start.tokens < bytes as real <= b.tokens
    && b.last == start.last + Wait(bytes as real - start.tokens, rate) + late
    && b.tokens == Min(bytes as real + Earned(late, rate), 2.0 * rate as real)
  }

  class Limiter {
    const rate: nat
    var tokens: real
    var last: real

    function State(): Bucket
      reads this
    {
      Bucket(tokens, last)
    }

    ghost predicate Valid()
      reads this
    {
      rate > 0 ==> Sound(State(), rate)
    }

    /** A rate of zero means no limit; the source then fills the bucket with infinity, which is never read. */
    constructor (rate: nat, now: real)
      ensures Valid() && this.rate == rate && last == now
      ensures rate > 0 ==> tokens == 2.0 * rate as real
    {
      this.rate := rate;
      tokens := 2.0 * rate as real;
      last := now;
    }

    method Refill(now: real)
      requires Valid() && now >= last
      modifies this
      ensures Valid()
      ensures State() == if rate > 0 then Refilled(old(State()), rate, now) else old(State())
    {
      if rate == 0 {
        return;
      }
      EarnedSign(now - last, rate);
      tokens := Min(tokens + Earned(now - last, rate), 2.0 * rate as real);
      last := now;
    }

    /**
     * Wait for `bytes` tokens and take them. The loop is followed for as many sleeps as `late` has entries;
     * `granted` tells whether it was left by then. A request of up to twice the rate sleeps at most once; a
     * larger one never leaves the loop.
     */
    method Acquire(bytes: nat, now: real, late: seq<real>) returns (granted: bool, sleeps: nat)
      requires Valid() && now >= last && forall i :: 0 <= i < |late| ==> late[i] >= 0.0
      modifies this
      ensures Valid() && sleeps <= |late|
      ensures rate == 0 ==> granted && sleeps == 0
      ensures rate > 0 && bytes > 2 * rate ==> !granted && sleeps == |late|
      ensures rate > 0 && bytes <= 2 * rate && |late| >= 1 ==> granted && sleeps <= 1
      ensures rate > 0 && granted ==>
        var start, taken := Refilled(old(State()), rate, now), Bucket(tokens + bytes as real, last);
        && (sleeps == 0 ==> taken == start && start.tokens >= bytes as real)
        && (sleeps > 0 ==> SleptOnce(start, rate, bytes, late[0], taken))
    {
      hide Earned, Wait;
      sleeps := 0;
      if rate == 0 {
        return true, 0;
      }
      Refill(now);
      ghost var start := State();
      while tokens < bytes as real && sleeps < |late|
        invariant Valid() && sleeps <= |late|
        invariant sleeps == 0 ==> State() == start
        invariant sleeps > 0 && bytes <= 2 * rate ==> sleeps == 1 && SleptOnce(start, rate, bytes, late[0], State())
        decreases |late| - sleeps
      {
        var deficit := bytes as real - tokens;
        var wait := Wait(deficit, rate);
        SleepCoversDeficit(State(), rate, bytes, late[sleeps]);
        EarnedSign(late[sleeps], rate);
        Refill(last + wait + late[sleeps]);
        sleeps := sleeps + 1;
      }
      if tokens < bytes as real {
        return false, sleeps;
      }
      tokens := tokens - bytes as real;
      granted := true;
    }
  }

  // ---- runs ----

  /** A granted request: when its tokens were taken, and how many. */
  datatype Grant = Grant(time: real, bytes: nat)

  /** The bucket after a grant: refilled up to its time, then reduced. */
  function AfterGrant(b: Bucket, rate: nat, g: Grant): Bucket {
    var full := Refilled(b, rate, g.time);
    full.(tokens := full.tokens - g.bytes as real)
  }

  ghost predicate GrantPossible(b: Bucket, rate: nat, g: Grant) {
    g.time >= b.last && Refilled(b, rate, g.time).tokens >= g.bytes as real
  }

  /** However often a request slept, it is one possible grant at the time it woke up last. */
  lemma SleptIsGrant(b: Bucket, rate: nat, now: real, bytes: nat, late: real, taken: Bucket)
    requires rate > 0 && Sound(b, rate) && b.last <= now && late >= 0.0
    requires SleptOnce(Refilled(b, rate, now), rate, bytes, late, taken)
    ensures var g := Grant(taken.last, bytes);
      GrantPossible(b, rate, g) && AfterGrant(b, rate, g) == taken.(tokens := taken.tokens - bytes as real)
  {
    var start := Refilled(b, rate, now);
    SleepCoversDeficit(start, rate, bytes, late);
    RefillsCompose(b, rate, now, taken.last);
  }

  function After(b: Bucket, rate: nat, grants: seq<Grant>): Bucket {
    if grants == [] then b
    else AfterGrant(After(b, rate, grants[..|grants| - 1]), rate, grants[|grants| - 1])
  }

  /** Grants in the order of time, each taken from a bucket that held enough. */
  ghost predicate Possible(b: Bucket, rate: nat, grants: seq<Grant>) {
    grants != [] ==>
      var init := grants[..|grants| - 1];
      Possible(b, rate, init) && GrantPossible(After(b, rate, init), rate, grants[|grants| - 1])
  }

  function Total(grants: seq<Grant>): nat {
    if grants == [] then 0 else Total(grants[..|grants| - 1]) + grants[|grants| - 1].bytes
  }

  /** Two refills in a row are one refill at the later time. */
  lemma RefillsCompose(b: Bucket, rate: nat, t1: real, t2: real)
    requires b.last <= t1 <= t2
    ensures Refilled(Refilled(b, rate, t1), rate, t2) == Refilled(b, rate, t2)
  {
    hide Earned;
    EarnedAdds(t1 - b.last, t2 - t1, rate);
    assert t1 - b.last + (t2 - t1) == t2 - b.last;
    EarnedSign(t1 - b.last, rate);
    EarnedSign(t2 - t1, rate);
  }

  /** Tokens never leave the range from nothing to twice the rate. */
  lemma {:induction false} TokensStayInRange(b: Bucket, rate: nat, grants: seq<Grant>)
    requires Sound(b, rate) && Possible(b, rate, grants)
    ensures Sound(After(b, rate, grants), rate) && After(b, rate, grants).last >= b.last
  {
    hide Earned;
    if grants != [] {
      TokensStayInRange(b, rate, grants[..|grants| - 1]);
    }
  }

  /** What was granted, plus what is left, came out of the bucket or was earned since. */
  lemma {:induction false} GrantedWasEarned(b: Bucket, rate: nat, grants: seq<Grant>)
    requires Possible(b, rate, grants)
    ensures var e := After(b, rate, grants);
      Total(grants) as real + e.tokens <= b.tokens + Earned(e.last - b.last, rate)
  {
    if grants == [] {
      assert Earned(0.0, rate) == 0.0;
    } else {
      hide Earned;
      var init, g := grants[..|grants| - 1], grants[|grants| - 1];
      var m := After(b, rate, init);
      GrantedWasEarned(b, rate, init);
      EarnedAdds(m.last - b.last, g.time - m.last, rate);
      assert m.last - b.last + (g.time - m.last) == g.time - b.last;
    }
  }

  /**
   * In every window of a run, from one grant to a later one, at most twice the rate plus the rate times the
   * window's length is granted.
   */
  lemma WindowBound(b: Bucket, rate: nat, grants: seq<Grant>, first: nat)
    requires Sound(b, rate) && Possible(b, rate, grants) && first < |grants|
    ensures var length := grants[|grants| - 1].time - grants[first].time;
      Total(grants[first..]) as real <= 2.0 * rate as real + Earned(length, rate)
  {
    hide Earned, Possible, After, Total, Refilled;
    var start := After(b, rate, grants[..first]);
    var window := grants[first..];
    PossibleSplits(b, rate, grants, first);
    TokensStayInRange(b, rate, grants[..first]);
    FirstGrant(start, rate, window);
    var ahead := Refilled(start, rate, window[0].time);
    TokensStayInRange(ahead, rate, window);
    GrantedWasEarned(ahead, rate, window);
  }

  lemma {:induction false} PossibleSplits(b: Bucket, rate: nat, grants: seq<Grant>, first: nat)
    requires Possible(b, rate, grants) && first <= |grants|
    ensures Possible(b, rate, grants[..first])
    ensures Possible(After(b, rate, grants[..first]), rate, grants[first..])
    ensures After(After(b, rate, grants[..first]), rate, grants[first..]) == After(b, rate, grants)
  {
    hide AfterGrant, GrantPossible;
    if first == |grants| {
      assert grants[..first] == grants && grants[first..] == [];
    } else {
      var init := grants[..|grants| - 1];
      PossibleSplits(b, rate, init, first);
      assert init[..first] == grants[..first];
      assert grants[first..][..|grants[first..]| - 1] == init[first..];
    }
  }

  lemma RefilledIsSound(b: Bucket, rate: nat, now: real)
    requires Sound(b, rate) && now >= b.last
    ensures Sound(Refilled(b, rate, now), rate)
    ensures Refilled(b, rate, now).last == now
  {
    EarnedSign(now - b.last, rate);
  }

  /** The refill of the first grant of a window may be done ahead. */
  lemma {:induction false} FirstGrant(b: Bucket, rate: nat, grants: seq<Grant>)
    requires Sound(b, rate) && Possible(b, rate, grants) && grants != []
    ensures var ahead := Refilled(b, rate, grants[0].time);
      && Sound(ahead, rate) && ahead.last == grants[0].time
      && Possible(ahead, rate, grants) && After(ahead, rate, grants) == After(b, rate, grants)
      && After(b, rate, grants).last == grants[|grants| - 1].time
  {
    var init := grants[..|grants| - 1];
    var ahead := Refilled(b, rate, grants[0].time);
    if init == [] {
      assert grants == [grants[0]];
      RefilledIsSound(b, rate, grants[0].time);
      RefillsCompose(b, rate, grants[0].time, grants[0].time);
      assert After(b, rate, init) == b && After(ahead, rate, init) == ahead;
    } else {
      hide Refilled;
      FirstGrant(b, rate, init);
      LastIs(b, rate, grants);
    }
  }

  lemma LastIs(b: Bucket, rate: nat, grants: seq<Grant>)
    requires grants != []
    ensures After(b, rate, grants).last == grants[|grants| - 1].time
  {
  }
}
