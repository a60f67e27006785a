/** The hash-chained audit log: appending, verifying, and what a verified chain proves. */
module AuditLog {
  import opened Wrappers
  import opened Bytes
  import opened HexForm

  type Hash = Bytes -> Digest

  datatype Entry = Entry(
    sequence: nat,
    prevHash: Digest,
    contentHash: Digest,
    timestamp: Bytes,
    actor: Bytes,
    action: Bytes,
    details: Bytes,
    signature: Option<Bytes>)

  /** What a caller of `append` records, with the time it was taken. */
  datatype Record = Record(timestamp: Bytes, actor: Bytes, action: Bytes, details: Bytes)

  /** The text fields run together without separators. */
  function Text(e: Entry): Bytes {
    e.timestamp + e.actor + e.action + e.details
  }

  /** The bytes fed to the hash. */
  function Preimage(e: Entry): Bytes {
    U64(e.sequence) + e.prevHash + Text(e)
  }

  predicate IntegrityHolds(hash: Hash, e: Entry) {
    hash(Preimage(e)) == e.contentHash
  }

  predicate Follows(hash: Hash, prev: Option<Entry>, e: Entry) {
    && e.prevHash == (if prev.Some? then prev.value.contentHash else ZERO_HASH)
    && IntegrityHolds(hash, e)
  }

  function Previous(log: seq<Entry>, i: nat): Option<Entry>
    requires i <= |log|
  {
    if i > 0 then Some(log[i - 1]) else None
  }

  predicate EntryVerifies(hash: Hash, log: seq<Entry>, i: nat)
    requires i < |log|
  {
    Follows(hash, Previous(log, i), log[i])
  }

  predicate Verifies(hash: Hash, log: seq<Entry>) {
    forall i: nat :: i < |log| ==> EntryVerifies(hash, log, i)
  }

  /** The hash the next entry must link to. */
  function Tip(log: seq<Entry>): Digest {
    if log == [] then ZERO_HASH else log[|log| - 1].contentHash
  }

  function Link(hash: Hash, prev: Option<Entry>, r: Record): Entry {
    var sequence := if prev.Some? then prev.value.sequence + 1 else 0;
    var prevHash := if prev.Some? then prev.value.contentHash else ZERO_HASH;
    var e := Entry(sequence, prevHash, ZERO_HASH, r.timestamp, r.actor, r.action, r.details, None);
    e.(contentHash := hash(Preimage(e)))
  }

  /** A line of the log file: an entry, or text that is not one. */
  datatype Line = Parsed(entry: Entry) | Damaged

  /** The entries read back: lines that do not parse are skipped. */
  function Entries(lines: seq<Line>): (r: seq<Entry>)
    ensures |r| <= |lines|
    ensures lines != [] && lines[|lines| - 1].Parsed? ==> r != [] && r[|r| - 1] == lines[|lines| - 1].entry
  {
    if lines == [] then []
    else
      var front := Entries(lines[..|lines| - 1]);
      match lines[|lines| - 1]
      case Parsed(e) => front + [e]
      case Damaged => front
  }

  /** `Overflowed` is the 64-bit counter running out, which stops a checked build. */
  datatype AppendResult = Appended(entry: Entry) | InvalidData | Overflowed

  class Log {
    const hash: Hash
    var lines: seq<Line>

    constructor (hash: Hash)
      ensures this.hash == hash && lines == []
    {
      this.hash := hash;
      lines := [];
    }

    method Append(r: Record) returns (result: AppendResult)
      modifies this
      ensures result.InvalidData? <==> old(lines) != [] && old(lines[|lines| - 1]).Damaged?
      ensures !result.Appended? ==> lines == old(lines)
      ensures result.Appended? ==>
        && lines == old(lines) + [Parsed(result.entry)]
        && Entries(lines) == Entries(old(lines)) + [result.entry]
        && result.entry.prevHash == Tip(Entries(old(lines)))
        && result.entry.sequence < U64_LIMIT
        && Record(result.entry.timestamp, result.entry.actor, result.entry.action, result.entry.details) == r
        && (Verifies(hash, Entries(old(lines))) <==> Verifies(hash, Entries(lines)))
      ensures result.Overflowed? ==>
        old(lines) != [] && old(lines[|lines| - 1]).Parsed? && old(lines[|lines| - 1].entry.sequence) + 1 >= U64_LIMIT
    {
      var prev := None;
      if lines != [] {
        var last := lines[|lines| - 1];
        if last.Damaged? {
          return InvalidData;
        }
        prev := Some(last.entry);
      }
      if prev.Some? && prev.value.sequence + 1 >= U64_LIMIT {
        return Overflowed;
      }
      ghost var before := Entries(lines);
      var entry := Link(hash, prev, r);
      lines := lines + [Parsed(entry)];
      assert lines[..|lines| - 1] == old(lines);
      ExtendVerifies(hash, before, entry);
      result := Appended(entry);
    }

    /** Counts the entries and finds the first that breaks the chain. */
    method VerifyChain() returns (total: nat, firstInvalid: Option<nat>)
      ensures total == |Entries(lines)|
      ensures firstInvalid.None? <==> Verifies(hash, Entries(lines))
      ensures firstInvalid.Some? ==>
        && firstInvalid.value < total
        && !EntryVerifies(hash, Entries(lines), firstInvalid.value)
        && Verifies(hash, Entries(lines)[..firstInvalid.value])
    {
      var entries := Entries(lines);
      firstInvalid := None;
      var i := 0;
      while i < |entries|
        invariant 0 <= i <= |entries|
        invariant firstInvalid.None? ==> forall k: nat :: k < i ==> EntryVerifies(hash, entries, k)
        invariant firstInvalid.Some? ==>
          && firstInvalid.value < i && !EntryVerifies(hash, entries, firstInvalid.value)
          && forall k: nat :: k < firstInvalid.value ==> EntryVerifies(hash, entries, k)
      {
        var prev := if i > 0 then Some(entries[i - 1]) else None;
        if !Follows(hash, prev, entries[i]) && firstInvalid.None? {
          firstInvalid := Some(i);
        }
        i := i + 1;
      }
      total := |entries|;
      if firstInvalid.Some? {
        PrefixVerifies(hash, entries, firstInvalid.value);
      }
    }
  }

  lemma {:induction false} EntriesAppend(a: seq<Line>, b: seq<Line>)
    ensures Entries(a + b) == Entries(a) + Entries(b)
    decreases |b|
  {
    if b == [] {
      assert a + b == a;
    } else {
      var last := |b| - 1;
      assert (a + b)[..|a| + last] == a + b[..last] && (a + b)[|a| + last] == b[last];
      EntriesAppend(a, b[..last]);
    }
  }

  /** A line that does not parse hides no other, wherever it stands; one that does is read in its place. */
  lemma LinesAreReadOneByOne(a: seq<Line>, e: Entry, b: seq<Line>)
    ensures Entries(a + [Damaged] + b) == Entries(a) + Entries(b)
    ensures Entries(a + [Parsed(e)] + b) == Entries(a) + [e] + Entries(b)
  {
    EntriesAppend(a + [Damaged], b);
    EntriesAppend(a, [Damaged]);
    EntriesAppend(a + [Parsed(e)], b);
    EntriesAppend(a, [Parsed(e)]);
    assert [Damaged][..0] == [] && [Parsed(e)][..0] == [];
  }

  /** The entries before the first bad one form a good log; dropping entries from the end is not noticed. */
  lemma PrefixVerifies(hash: Hash, log: seq<Entry>, n: nat)
    requires n <= |log|
    ensures Verifies(hash, log[..n]) <==> forall i: nat :: i < n ==> EntryVerifies(hash, log, i)
  {
    assert forall i: nat :: i < n ==> (EntryVerifies(hash, log, i) <==> EntryVerifies(hash, log[..n], i));
  }

  lemma ExtendVerifies(hash: Hash, log: seq<Entry>, e: Entry)
    ensures Verifies(hash, log + [e]) <==> Verifies(hash, log) && e.prevHash == Tip(log) && IntegrityHolds(hash, e)
  {
    var longer := log + [e];
    assert longer[..|log|] == log;
    PrefixVerifies(hash, longer, |log|);
    assert EntryVerifies(hash, longer, |log|) <==> e.prevHash == Tip(log) && IntegrityHolds(hash, e);
  }

  /** The log that `Append` alone builds from a list of records. */
  function LogOf(hash: Hash, records: seq<Record>): (r: seq<Entry>)
    ensures |r| == |records|
  {
    if records == [] then []
    else
      var front := LogOf(hash, records[..|records| - 1]);
      front + [Link(hash, Previous(front, |front|), records[|records| - 1])]
  }

  /** Such a log verifies, numbers its entries from zero and keeps every record in its place. */
  lemma {:induction false} AppendedLogVerifies(hash: Hash, records: seq<Record>)
    ensures var log := LogOf(hash, records);
      && Verifies(hash, log)
      && forall i :: 0 <= i < |log| ==>
        && log[i].sequence == i
        && Record(log[i].timestamp, log[i].actor, log[i].action, log[i].details) == records[i]
  {
    if records != [] {
      var front := LogOf(hash, records[..|records| - 1]);
      AppendedLogVerifies(hash, records[..|records| - 1]);
      ExtendVerifies(hash, front, Link(hash, Previous(front, |front|), records[|records| - 1]));
    }
  }

  /** Different bytes with the same hash. */
  predicate Collides(hash: Hash, d: Entry, e: Entry) {
    hash(Preimage(d)) == hash(Preimage(e)) && Preimage(d) != Preimage(e)
  }

  /** No two entries of the logs collide, none hashes to zero, and their numbers fit in 64 bits. */
  ghost predicate HashIsGood(hash: Hash, a: seq<Entry>, b: seq<Entry>) {
    && (forall d, e :: d in a + b && e in a + b ==> !Collides(hash, d, e))
    && (forall e :: e in a + b ==> hash(Preimage(e)) != ZERO_HASH && e.sequence < U64_LIMIT)
  }

  /** All that the chain protects of an entry. */
  predicate SameContent(d: Entry, e: Entry) {
    d.sequence == e.sequence && d.prevHash == e.prevHash && Text(d) == Text(e)
  }

  lemma PreimageDecides(d: Entry, e: Entry)
    requires d.sequence < U64_LIMIT && e.sequence < U64_LIMIT
    ensures Preimage(d) == Preimage(e) <==> SameContent(d, e)
  {
    if Preimage(d) == Preimage(e) {
      assert U64(d.sequence) + (d.prevHash + Text(d)) == Preimage(d);
      assert U64(e.sequence) + (e.prevHash + Text(e)) == Preimage(e);
      SplitAtLength(U64(d.sequence), d.prevHash + Text(d), U64(e.sequence), e.prevHash + Text(e));
      U64Injective(d.sequence, e.sequence);
      SplitAtLength(d.prevHash, Text(d), e.prevHash, Text(e));
    }
  }

  lemma LastEntryVerifies(hash: Hash, log: seq<Entry>)
    requires Verifies(hash, log) && log != []
    ensures var e := log[|log| - 1];
      && hash(Preimage(e)) == e.contentHash == Tip(log)
      && e.prevHash == Tip(log[..|log| - 1])
      && Verifies(hash, log[..|log| - 1])
  {
    hide Preimage;
    assert EntryVerifies(hash, log, |log| - 1);
    PrefixVerifies(hash, log, |log| - 1);
  }

  lemma GoodWhenShorter(hash: Hash, a: seq<Entry>, b: seq<Entry>)
    requires HashIsGood(hash, a, b) && a != [] && b != []
    ensures HashIsGood(hash, a[..|a| - 1], b[..|b| - 1])
  {
    hide Collides, Preimage;
    assert forall x :: x in a[..|a| - 1] + b[..|b| - 1] ==> x in a + b;
  }

  lemma SameTipSameEntry(hash: Hash, a: seq<Entry>, b: seq<Entry>)
    requires Verifies(hash, a) && Verifies(hash, b) && HashIsGood(hash, a, b)
    requires a != [] && b != [] && Tip(a) == Tip(b)
    ensures SameContent(a[|a| - 1], b[|b| - 1])
  {
    var d, e := a[|a| - 1], b[|b| - 1];
    assert d in a + b && e in a + b;
    LastEntryVerifies(hash, a);
    LastEntryVerifies(hash, b);
    hide Verifies, Preimage, Tip;
    assert !Collides(hash, d, e);
    PreimageDecides(d, e);
  }

  /** One step back along two chains that end in the same hash. */
  lemma SameTipStep(hash: Hash, a: seq<Entry>, b: seq<Entry>)
    requires Verifies(hash, a) && Verifies(hash, b) && HashIsGood(hash, a, b)
    requires a != [] && b != [] && Tip(a) == Tip(b)
    ensures SameContent(a[|a| - 1], b[|b| - 1]) && a[|a| - 1].contentHash == b[|b| - 1].contentHash
    ensures var front, other := a[..|a| - 1], b[..|b| - 1];
      && Verifies(hash, front) && Verifies(hash, other) && HashIsGood(hash, front, other)
      && Tip(front) == Tip(other)
  {
    SameTipSameEntry(hash, a, b);
    LastEntryVerifies(hash, a);
    LastEntryVerifies(hash, b);
    GoodWhenShorter(hash, a, b);
    hide Verifies, Preimage, HashIsGood;
  }

  /** Nothing hashes to zero, so only the empty log ends in zero. */
  lemma TipIsHashed(hash: Hash, a: seq<Entry>, b: seq<Entry>)
    requires Verifies(hash, a) && HashIsGood(hash, a, b)
    ensures Tip(a) == ZERO_HASH <==> a == []
  {
    hide Preimage;
    if a != [] {
      assert a[|a| - 1] in a + b;
      assert EntryVerifies(hash, a, |a| - 1);
    }
  }

  lemma GoodIsSymmetric(hash: Hash, a: seq<Entry>, b: seq<Entry>)
    requires HashIsGood(hash, a, b)
    ensures HashIsGood(hash, b, a)
  {
    hide Collides, Preimage;
    assert forall x :: x in b + a ==> x in a + b;
  }

  /** The last hash fixes the whole log: its length and, entry by entry, everything the chain protects. */
  lemma {:induction false} SameTipSameLog(hash: Hash, a: seq<Entry>, b: seq<Entry>)
    requires Verifies(hash, a) && Verifies(hash, b) && HashIsGood(hash, a, b)
    requires Tip(a) == Tip(b)
    ensures |a| == |b|
    ensures forall i :: 0 <= i < |a| ==> SameContent(a[i], b[i]) && a[i].contentHash == b[i].contentHash
  {
    hide *;
    TipIsHashed(hash, a, b);
    GoodIsSymmetric(hash, a, b);
    TipIsHashed(hash, b, a);
    if a != [] {
      SameTipStep(hash, a, b);
      SameTipSameLog(hash, a[..|a| - 1], b[..|b| - 1]);
    }
  }

  /** Editing the text of an entry in place is caught exactly when the run-together text changes. */
  lemma EditIsCaughtIff(hash: Hash, log: seq<Entry>, k: nat, e: Entry)
    requires Verifies(hash, log) && k < |log| && log[k].sequence < U64_LIMIT
    requires e.sequence == log[k].sequence && e.prevHash == log[k].prevHash && e.contentHash == log[k].contentHash
    requires !Collides(hash, log[k], e)
    ensures Verifies(hash, log[k := e]) <==> Text(e) == Text(log[k])
  {
    var edited := log[k := e];
    PreimageDecides(log[k], e);
    assert EntryVerifies(hash, log, k);
    assert EntryVerifies(hash, edited, k) <==> Text(e) == Text(log[k]);
    assert forall i: nat :: i < |log| && i != k ==> (EntryVerifies(hash, edited, i) <==> EntryVerifies(hash, log, i));
  }

  /** Rewriting an entry and its own hash is caught exactly when another entry follows and the content changed. */
  lemma RehashIsCaughtIff(hash: Hash, log: seq<Entry>, k: nat, e: Entry)
    requires Verifies(hash, log) && k < |log| && log[k].sequence < U64_LIMIT && e.sequence < U64_LIMIT
    requires Follows(hash, Previous(log, k), e)
    requires !Collides(hash, log[k], e)
    ensures Verifies(hash, log[k := e]) <==> k == |log| - 1 || SameContent(e, log[k])
  {
    var edited := log[k := e];
    PreimageDecides(log[k], e);
    assert EntryVerifies(hash, log, k);
    assert EntryVerifies(hash, edited, k);
    assert forall i: nat :: i < |log| && i != k && i != k + 1 ==>
      (EntryVerifies(hash, edited, i) <==> EntryVerifies(hash, log, i));
    if k + 1 < |log| {
      assert EntryVerifies(hash, log, k + 1);
      assert EntryVerifies(hash, edited, k + 1) <==> e.contentHash == log[k].contentHash;
    }
  }

  /** Moving a letter from the actor to the action leaves every log that held the entry verifying. */
  lemma FieldBoundariesAreOpen(hash: Hash, log: seq<Entry>, k: nat)
    requires Verifies(hash, log) && k < |log| && log[k].sequence < U64_LIMIT && log[k].actor != []
    ensures var e := log[k];
      var last := |e.actor| - 1;
      var moved := e.(actor := e.actor[..last], action := [e.actor[last]] + e.action);
      moved != e && Verifies(hash, log[k := moved])
  {
    var e := log[k];
    var last := |e.actor| - 1;
    var moved := e.(actor := e.actor[..last], action := [e.actor[last]] + e.action);
    assert moved.actor + moved.action == e.actor + e.action;
    assert Text(moved) == moved.timestamp + (moved.actor + moved.action) + moved.details;
    assert Text(e) == e.timestamp + (e.actor + e.action) + e.details;
    EditIsCaughtIff(hash, log, k, moved);
  }
}
