/**
 * The daemon's bounded queue of failed pushes and the flush that retries them, with the outcome of each
 * request chosen by the network.
 */
module OfflineQueue {

  datatype QueuedPush = QueuedPush(remoteUrl: string, body: string)

  /** How one retry ends. The two lossy ones leave the flush through an error without queueing again. */
  datatype Outcome = Accepted | Refused | HttpError | NetworkError | UnreadableBody | UnreadableResponse

  predicate Lossy(o: Outcome) {
    o == UnreadableBody || o == UnreadableResponse
  }

  /** The network's choices; what lies beyond the given ones is an unreachable network. */
  function At(outcomes: seq<Outcome>, i: nat): Outcome {
    if i < |outcomes| then outcomes[i] else NetworkError
  }

  /** How many of `n` retries are accepted before the first failure. */
  function AcceptedPrefix(outcomes: seq<Outcome>, n: nat): (k: nat)
    ensures k <= n
    ensures forall i :: 0 <= i < k ==> At(outcomes, i) == Accepted
    ensures k < n ==> At(outcomes, k) != Accepted
  {
    if n == 0 then 0
    else
      var k := AcceptedPrefix(outcomes, n - 1);
      if k == n - 1 && At(outcomes, k) == Accepted then n else k
  }

  /** The retry of item `i` is the first that is not accepted. */
  predicate FirstFailure(outcomes: seq<Outcome>, i: nat) {
    At(outcomes, i) != Accepted && forall j: nat :: j < i ==> At(outcomes, j) == Accepted
  }

  lemma PrefixIsFirstFailure(outcomes: seq<Outcome>, n: nat, i: nat)
    requires i < n
    ensures FirstFailure(outcomes, i) <==> AcceptedPrefix(outcomes, n) == i
  {
  }

  function AfterEnqueue(items: seq<QueuedPush>, maxSize: nat, item: QueuedPush): seq<QueuedPush> {
    (if |items| >= maxSize && items != [] then items[1..] else items) + [item]
  }

  /** The queue after a flush: everything from a handled failure on, nothing otherwise. */
  function AfterFlush(items: seq<QueuedPush>, outcomes: seq<Outcome>): seq<QueuedPush> {
    var k := AcceptedPrefix(outcomes, |items|);
    if k < |items| && !Lossy(At(outcomes, k)) then items[k..] else []
  }

  class Queue {
    var items: seq<QueuedPush>
    const maxSize: nat

    ghost predicate Valid()
      reads this
    {
      |items| <= maxSize
    }

    constructor (maxSize: nat)
      ensures Valid() && items == [] && this.maxSize == maxSize
    {
      this.maxSize := maxSize;
      items := [];
    }

    /** Removing the oldest entry of an empty queue panics, which a queue of size zero always does. */
    method Enqueue(body: string, remoteUrl: string) returns (panicked: bool)
      requires Valid()
      modifies this
      ensures Valid()
      ensures panicked <==> maxSize == 0
      ensures panicked ==> items == old(items)
      ensures !panicked ==> items == AfterEnqueue(old(items), maxSize, QueuedPush(remoteUrl, body))
    {
      if |items| >= maxSize {
        if |items| == 0 {
          return true;
        }
        items := items[1..];
      }
      items := items + [QueuedPush(remoteUrl, body)];
      return false;
    }

    method Drain() returns (drained: seq<QueuedPush>)
      requires Valid()
      modifies this
      ensures Valid() && drained == old(items) && items == []
    {
      drained := items;
      items := [];
    }

    method Requeue(remaining: seq<QueuedPush>)
      requires Valid() && items == [] && |remaining| <= maxSize
      modifies this
      ensures Valid() && items == remaining
    {
      for i := 0 to |remaining|
        invariant Valid() && items == remaining[..i]
      {
        var panicked := Enqueue(remaining[i].body, remaining[i].remoteUrl);
      }
    }

    /**
     * Retry every queued push in order, against the given network. A push that is refused, or that the network or
     * the server fails, is queued again with all behind it; one that cannot be read, or whose answer cannot be read,
     * leaves the queue empty.
     */
    method Flush(outcomes: seq<Outcome>) returns (ok: bool, acknowledged: nat)
      requires Valid()
      modifies this
      ensures forall i :: 0 <= i < |old(items)| && FirstFailure(outcomes, i) ==>
        match At(outcomes, i)
        case Refused => items == old(items)[i..]
        case HttpError => items == old(items)[i..]
        case NetworkError => items == old(items)[i..]
        case UnreadableBody => items == []
        case UnreadableResponse => items == []
      ensures (forall i :: 0 <= i < |old(items)| ==> At(outcomes, i) == Accepted) ==> items == []
      ensures Valid() && items == AfterFlush(old(items), outcomes)
      ensures acknowledged == AcceptedPrefix(outcomes, |old(items)|)
      ensures ok <==> acknowledged == |old(items)|
    {
      ghost var before := items;
      FlushIs(before, outcomes);
      var drained := Drain();
      acknowledged := 0;
      for i := 0 to |drained|
        invariant Valid() && items == [] && acknowledged == i == AcceptedPrefix(outcomes, i)
      {
        PrefixStops(outcomes, i, |drained|);
        match At(outcomes, i) {
          case UnreadableBody =>
            return false, i;
          case NetworkError =>
            Requeue(drained[i..]);
            return false, i;
          case HttpError =>
            Requeue(drained[i..]);
            return false, i;
          case UnreadableResponse =>
            return false, i;
          case Refused =>
            Requeue(drained[i..]);
            return false, i;
          case Accepted =>
            acknowledged := i + 1;
        }
      }
      ok := true;
    }
  }

  /** What is in the queue after a flush, by how the first failing retry ended. */
  lemma FlushIs(items: seq<QueuedPush>, outcomes: seq<Outcome>)
    ensures forall i :: 0 <= i < |items| && FirstFailure(outcomes, i) ==>
      match At(outcomes, i)
      case Refused => AfterFlush(items, outcomes) == items[i..]
      case HttpError => AfterFlush(items, outcomes) == items[i..]
      case NetworkError => AfterFlush(items, outcomes) == items[i..]
      case UnreadableBody => AfterFlush(items, outcomes) == []
      case UnreadableResponse => AfterFlush(items, outcomes) == []
    ensures (forall i :: 0 <= i < |items| ==> At(outcomes, i) == Accepted) ==> AfterFlush(items, outcomes) == []
  {
    forall i: nat | i < |items| && FirstFailure(outcomes, i)
      ensures AcceptedPrefix(outcomes, |items|) == i
    {
      PrefixIsFirstFailure(outcomes, |items|, i);
    }
  }

  lemma {:induction false} PrefixStops(outcomes: seq<Outcome>, i: nat, n: nat)
    requires i < n && AcceptedPrefix(outcomes, i) == i
    ensures At(outcomes, i) != Accepted ==> AcceptedPrefix(outcomes, n) == i
    ensures At(outcomes, i) == Accepted ==> AcceptedPrefix(outcomes, i + 1) == i + 1
  {
    if i + 1 < n {
      PrefixStops(outcomes, i, n - 1);
    }
  }

  // ---- whole runs ----

  datatype Fate = Acknowledged | Evicted | Lost

  datatype Event = Offer(item: QueuedPush) | Retry(outcomes: seq<Outcome>)

  /** The queue, everything ever offered to it, and everything that left it, in the order it left. */
  datatype History = History(queue: seq<QueuedPush>, offered: seq<QueuedPush>, gone: seq<(QueuedPush, Fate)>)

  function Marked(items: seq<QueuedPush>, fate: Fate): seq<(QueuedPush, Fate)> {
    seq(|items|, i requires 0 <= i < |items| => (items[i], fate))
  }

  function Items(gone: seq<(QueuedPush, Fate)>): seq<QueuedPush> {
    seq(|gone|, i requires 0 <= i < |gone| => gone[i].0)
  }

  /** What an event does to the queue, and which fates it decides. */
  function Step(h: History, e: Event, maxSize: nat): History {
    match e
    case Offer(item) =>
      var evicted := if |h.queue| >= maxSize && h.queue != [] then h.queue[..1] else [];
      History(AfterEnqueue(h.queue, maxSize, item), h.offered + [item], h.gone + Marked(evicted, Evicted))
    case Retry(outcomes) =>
      var k := AcceptedPrefix(outcomes, |h.queue|);
      var lost := if k < |h.queue| && Lossy(At(outcomes, k)) then h.queue[k..] else [];
      History(AfterFlush(h.queue, outcomes), h.offered,
              h.gone + Marked(h.queue[..k], Acknowledged) + Marked(lost, Lost))
  }

  function Run(events: seq<Event>, maxSize: nat): History {
    if events == [] then History([], [], [])
    else Step(Run(events[..|events| - 1], maxSize), events[|events| - 1], maxSize)
  }

  lemma StepConserves(h: History, e: Event, maxSize: nat)
    requires maxSize > 0 && |h.queue| <= maxSize && Items(h.gone) + h.queue == h.offered
    ensures var h' := Step(h, e, maxSize);
      |h'.queue| <= maxSize && Items(h'.gone) + h'.queue == h'.offered
  {
    var h' := Step(h, e, maxSize);
    match e {
      case Offer(item) =>
        var evicted := if |h.queue| >= maxSize && h.queue != [] then h.queue[..1] else [];
        assert Items(h'.gone) == Items(h.gone) + evicted;
      case Retry(outcomes) =>
        var k := AcceptedPrefix(outcomes, |h.queue|);
        var lost := if k < |h.queue| && Lossy(At(outcomes, k)) then h.queue[k..] else [];
        assert Items(h'.gone) == Items(h.gone) + h.queue[..k] + lost;
        assert h.queue == h.queue[..k] + h.queue[k..];
    }
  }

  /**
   * Over any run of a queue of size at least one, nothing is invented, duplicated or reordered: what left
   * the queue, in the order it left, followed by what is queued, is exactly what was offered.
   */
  lemma {:induction false} RunConserves(events: seq<Event>, maxSize: nat)
    requires maxSize > 0
    ensures var h := Run(events, maxSize);
      |h.queue| <= maxSize && Items(h.gone) + h.queue == h.offered
  {
    if events != [] {
      RunConserves(events[..|events| - 1], maxSize);
      StepConserves(Run(events[..|events| - 1], maxSize), events[|events| - 1], maxSize);
    }
  }

  ghost predicate HasFate(gone: seq<(QueuedPush, Fate)>, fate: Fate) {
    exists i :: 0 <= i < |gone| && gone[i].1 == fate
  }

  /** The first retry that is not accepted ends with a body or a response that cannot be read. */
  ghost predicate LossyEvent(h: History, e: Event) {
    e.Retry? && exists i: nat ::
      && i < |h.queue| && FirstFailure(e.outcomes, i)
      && (At(e.outcomes, i) == UnreadableBody || At(e.outcomes, i) == UnreadableResponse)
  }

  lemma LossyEventIs(h: History, outcomes: seq<Outcome>)
    ensures LossyEvent(h, Retry(outcomes)) <==>
            (var k := AcceptedPrefix(outcomes, |h.queue|); k < |h.queue| && Lossy(At(outcomes, k)))
  {
    forall i: nat | i < |h.queue|
      ensures FirstFailure(outcomes, i) <==> AcceptedPrefix(outcomes, |h.queue|) == i
    {
      PrefixIsFirstFailure(outcomes, |h.queue|, i);
    }
  }

  /** A push is offered to a full queue. */
  predicate EvictingEvent(h: History, e: Event, maxSize: nat) {
    e.Offer? && |h.queue| >= maxSize && h.queue != []
  }

  lemma HasFateConcat(a: seq<(QueuedPush, Fate)>, b: seq<(QueuedPush, Fate)>, fate: Fate)
    ensures HasFate(a + b, fate) <==> HasFate(a, fate) || HasFate(b, fate)
  {
    if HasFate(a, fate) {
      var i :| 0 <= i < |a| && a[i].1 == fate;
      assert (a + b)[i].1 == fate;
    }
    if HasFate(b, fate) {
      var i :| 0 <= i < |b| && b[i].1 == fate;
      assert (a + b)[|a| + i].1 == fate;
    }
  }

  lemma HasFateMarked(items: seq<QueuedPush>, mark: Fate, fate: Fate)
    ensures HasFate(Marked(items, mark), fate) <==> items != [] && mark == fate
  {
    if items != [] && mark == fate {
      assert Marked(items, mark)[0].1 == fate;
    }
  }

  /** The event hands out the fate: a retry is accepted, an exit is lossy, an offer meets a full queue. */
  ghost predicate Decides(h: History, e: Event, maxSize: nat, fate: Fate) {
    match fate
    case Acknowledged => e.Retry? && h.queue != [] && At(e.outcomes, 0) == Accepted
    case Lost => LossyEvent(h, e)
    case Evicted => EvictingEvent(h, e, maxSize)
  }

  lemma FirstIsAccepted(outcomes: seq<Outcome>, n: nat)
    ensures AcceptedPrefix(outcomes, n) > 0 <==> n > 0 && At(outcomes, 0) == Accepted
  {
  }

  lemma StepFates(h: History, e: Event, maxSize: nat, fate: Fate)
    ensures HasFate(Step(h, e, maxSize).gone, fate) <==> HasFate(h.gone, fate) || Decides(h, e, maxSize, fate)
  {
    hide HasFate, Marked, At;
    match e {
      case Offer(item) =>
        var evicted := if |h.queue| >= maxSize && h.queue != [] then h.queue[..1] else [];
        HasFateConcat(h.gone, Marked(evicted, Evicted), fate);
        HasFateMarked(evicted, Evicted, fate);
      case Retry(outcomes) =>
        var k := AcceptedPrefix(outcomes, |h.queue|);
        var lost := if k < |h.queue| && Lossy(At(outcomes, k)) then h.queue[k..] else [];
        var acked := Marked(h.queue[..k], Acknowledged);
        hide LossyEvent;
        LossyEventIs(h, outcomes);
        FirstIsAccepted(outcomes, |h.queue|);
        HasFateConcat(h.gone + acked, Marked(lost, Lost), fate);
        HasFateConcat(h.gone, acked, fate);
        HasFateMarked(h.queue[..k], Acknowledged, fate);
        HasFateMarked(lost, Lost, fate);
        assert |h.queue[..k]| == k && |lost| == if k < |h.queue| && Lossy(At(outcomes, k)) then |h.queue| - k else 0;
    }
  }

  ghost predicate DecidedAt(events: seq<Event>, maxSize: nat, n: nat, fate: Fate)
    requires n < |events|
  {
    Decides(Run(events[..n], maxSize), events[n], maxSize, fate)
  }

  /**
   * Which fates a run hands out: pushes are lost exactly by lossy exits, evicted exactly by offers to a
   * full queue, acknowledged exactly by accepted retries.
   */
  lemma {:induction false} RunFates(events: seq<Event>, maxSize: nat, fate: Fate)
    ensures HasFate(Run(events, maxSize).gone, fate) <==>
            exists n :: 0 <= n < |events| && DecidedAt(events, maxSize, n, fate)
  {
    hide HasFate, Decides, Step;
    if events == [] {
      NoFates();
    } else {
      var init, last := events[..|events| - 1], |events| - 1;
      RunFates(init, maxSize, fate);
      StepFates(Run(init, maxSize), events[last], maxSize, fate);
      assert events[..last] == init;
      forall n | 0 <= n < last
        ensures DecidedAt(init, maxSize, n, fate) <==> DecidedAt(events, maxSize, n, fate)
      {
        assert init[..n] == events[..n];
      }
      assert DecidedAt(events, maxSize, last, fate) <==> Decides(Run(init, maxSize), events[last], maxSize, fate);
    }
  }

  lemma NoFates()
    ensures forall fate :: !HasFate([], fate)
  {
  }

  /** With no lossy exit and no full queue, acknowledged and queued pushes are all that were offered. */
  lemma NothingDisappears(events: seq<Event>, maxSize: nat)
    requires maxSize > 0
    requires forall n :: 0 <= n < |events| ==>
      !DecidedAt(events, maxSize, n, Lost) && !DecidedAt(events, maxSize, n, Evicted)
    ensures var h := Run(events, maxSize);
      && (forall i :: 0 <= i < |h.gone| ==> h.gone[i].1 == Acknowledged)
      && Items(h.gone) + h.queue == h.offered
  {
    hide DecidedAt, Run;
    RunFates(events, maxSize, Lost);
    RunFates(events, maxSize, Evicted);
    RunConserves(events, maxSize);
    var h := Run(events, maxSize);
    forall i | 0 <= i < |h.gone|
      ensures h.gone[i].1 == Acknowledged
    {
      assert h.gone[i].1 == Lost ==> HasFate(h.gone, Lost);
      assert h.gone[i].1 == Evicted ==> HasFate(h.gone, Evicted);
    }
  }
}
