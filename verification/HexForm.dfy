/** Hashes as 32 bytes and as 64 lower-case hex digits. */
module HexForm {
  import opened Wrappers
  import opened Bytes

  const ZEROS: Bytes := [0, 0, 0, 0, 0, 0, 0, 0, 0, 0, 0, 0, 0, 0, 0, 0, 0, 0, 0, 0, 0, 0, 0, 0, 0, 0, 0, 0, 0, 0, 0, 0]

  type Digest = d: Bytes | |d| == 32 witness ZEROS

  const ZERO_HASH: Digest := ZEROS

  // ASCII codes of the characters the parser looks at.
  const PLUS: Byte := 43
  const ZERO: Byte := 48
  const UPPER_A: Byte := 65
  const LOWER_A: Byte := 97

  function HexChar(n: nat): Byte
    requires n < 16
  {
    if n < 10 then ZERO + n else LOWER_A + (n - 10)
  }

  /** The value of a hex digit of either case. */
  function DigitValue(c: Byte): Option<nat> {
    if ZERO <= c < ZERO + 10 then Some(c - ZERO)
    else if UPPER_A <= c < UPPER_A + 6 then Some(c - UPPER_A + 10)
    else if LOWER_A <= c < LOWER_A + 6 then Some(c - LOWER_A + 10)
    else None
  }

  /** Two characters read as Rust reads a base-16 `u8`: a leading plus sign is skipped. */
  function ParsePair(c: Byte, d: Byte): (r: Option<Byte>)
  {
    var low := DigitValue(d);
    var high := if c == PLUS then Some(0) else DigitValue(c);
    if high.Some? && low.Some? then Some(16 * high.value + low.value) else None
  }

  function HexOf(bytes: Bytes): (r: Bytes)
    ensures |r| == 2 * |bytes|
  {
    if bytes == [] then [] else [HexChar(bytes[0] / 16), HexChar(bytes[0] % 16)] + HexOf(bytes[1..])
  }

  lemma {:induction false} HexAt(bytes: Bytes, i: nat)
    requires i < |bytes|
    ensures HexOf(bytes)[2 * i] == HexChar(bytes[i] / 16) && HexOf(bytes)[2 * i + 1] == HexChar(bytes[i] % 16)
  {
    if i > 0 {
      HexAt(bytes[1..], i - 1);
    }
  }

  lemma {:induction false} HexOfSnoc(bytes: Bytes, b: Byte)
    ensures HexOf(bytes + [b]) == HexOf(bytes) + [HexChar(b / 16), HexChar(b % 16)]
  {
    if bytes == [] {
      assert bytes + [b] == [b];
    } else {
      HexOfSnoc(bytes[1..], b);
      assert (bytes + [b])[1..] == bytes[1..] + [b];
    }
  }

  /** The sixteen digits printed, the capitals read beside them, and the plus sign, as characters. */
  lemma DigitsAre(n: nat, c: Byte, d: Byte)
    ensures n < 16 ==> HexChar(n) as int == "0123456789abcdef"[n] as int
    ensures DigitValue(c) == Some(n) <==>
      n < 16 && (c as int == "0123456789abcdef"[n] as int || c as int == "0123456789ABCDEF"[n] as int)
    ensures ParsePair(c, d).Some? <==> (c as int == '+' as int || DigitValue(c).Some?) && DigitValue(d).Some?
  {
  }

  method ToHex(hash: Digest) returns (s: Bytes)
    ensures s == HexOf(hash)
    ensures |s| == 64
  {
    s := [];
    var i := 0;
    while i < |hash|
      invariant 0 <= i <= |hash|
      invariant s == HexOf(hash[..i])
    {
      HexOfSnoc(hash[..i], hash[i]);
      assert hash[..i + 1] == hash[..i] + [hash[i]];
      s := s + [HexChar(hash[i] / 16)];
      s := s + [HexChar(hash[i] % 16)];
      i := i + 1;
    }
    assert hash[..|hash|] == hash;
  }

  datatype HexError = InvalidHashLength(length: nat) | InvalidHex

  predicate PairParses(hex: Bytes, i: nat)
    requires 2 * i + 1 < |hex|
  {
    ParsePair(hex[2 * i], hex[2 * i + 1]).Some?
  }

  function PairValue(hex: Bytes, i: nat): Byte
    requires 2 * i + 1 < |hex| && PairParses(hex, i)
  {
    ParsePair(hex[2 * i], hex[2 * i + 1]).value
  }

  /** The digest whose bytes the 32 pairs spell. */
  function Parsed(hex: Bytes): Result<Digest, HexError> {
    if |hex| != 64 then Err(InvalidHashLength(|hex|))
    else if forall i :: 0 <= i < 32 ==> PairParses(hex, i) then
      Ok(seq(32, i requires 0 <= i < 32 && PairParses(hex, i) => PairValue(hex, i)))
    else Err(InvalidHex)
  }

  method FromHex(hex: Bytes) returns (r: Result<Digest, HexError>)
    ensures r == Parsed(hex)
  {
    if |hex| != 64 {
      return Err(InvalidHashLength(|hex|));
    }
    var bytes := new Byte[32](_ => 0);
    var i := 0;
    while i < 32
      invariant 0 <= i <= 32
      invariant forall k :: 0 <= k < i ==> ParsePair(hex[2 * k], hex[2 * k + 1]) == Some(bytes[k])
    {
      var pair := ParsePair(hex[2 * i], hex[2 * i + 1]);
      if pair.None? {
        assert !PairParses(hex, i);
        return Err(InvalidHex);
      }
      bytes[i] := pair.value;
      i := i + 1;
    }
    assert forall k :: 0 <= k < 32 ==> PairParses(hex, k);
    r := Ok(bytes[..]);
    assert r.value == Parsed(hex).value;
  }

  lemma ParsePairOfHex(b: Byte)
    ensures ParsePair(HexChar(b / 16), HexChar(b % 16)) == Some(b)
  {
    assert b == 16 * (b / 16) + b % 16;
  }

  /** Printing a hash and parsing the text gives the hash. */
  lemma HexParsesBack(hash: Digest)
    ensures Parsed(HexOf(hash)) == Ok(hash)
  {
    var s := HexOf(hash);
    forall i: nat | i < 32
      ensures PairParses(s, i) && ParsePair(s[2 * i], s[2 * i + 1]) == Some(hash[i])
    {
      HexAt(hash, i);
      ParsePairOfHex(hash[i]);
    }
    assert Parsed(s).Ok?;
    assert Parsed(s).value == hash;
  }

  lemma HexInjective(a: Digest, b: Digest)
    requires HexOf(a) == HexOf(b)
    ensures a == b
  {
    HexParsesBack(a);
    HexParsesBack(b);
  }

  /** A digit as `ToHex` prints it: not a capital, not a plus sign. */
  predicate Canonical(c: Byte) {
    ZERO <= c < ZERO + 10 || LOWER_A <= c < LOWER_A + 6
  }

  lemma PairReprintsIff(c: Byte, d: Byte, b: Byte)
    requires ParsePair(c, d) == Some(b)
    ensures Canonical(c) && Canonical(d) <==> c == HexChar(b / 16) && d == HexChar(b % 16)
  {
  }

  /** A text that parses is the printed form of its hash exactly when it has no capital and no plus sign. */
  lemma ReprintsIff(hex: Bytes)
    requires Parsed(hex).Ok?
    ensures HexOf(Parsed(hex).value) == hex <==> forall k :: 0 <= k < 64 ==> Canonical(hex[k])
  {
    var hash := Parsed(hex).value;
    var back := HexOf(hash);
    forall k: nat | k < 64
      ensures Canonical(hex[2 * (k / 2)]) && Canonical(hex[2 * (k / 2) + 1]) <==>
              hex[2 * (k / 2)] == back[2 * (k / 2)] && hex[2 * (k / 2) + 1] == back[2 * (k / 2) + 1]
      ensures back == hex ==> Canonical(hex[k])
      ensures (forall j :: 0 <= j < 64 ==> Canonical(hex[j])) ==> back[k] == hex[k]
    {
      var i := k / 2;
      assert PairParses(hex, i);
      HexAt(hash, i);
      PairReprintsIff(hex[2 * i], hex[2 * i + 1], hash[i]);
      assert k == 2 * i || k == 2 * i + 1;
    }
  }
}
