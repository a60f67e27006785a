/** Byte strings, and the fixed-width and terminated forms that keep them apart when concatenated. */
module Bytes {

  type Byte = b: int | 0 <= b < 256

  type Bytes = seq<Byte>

  function Power256(width: nat): nat {
    if width == 0 then 1 else 256 * Power256(width - 1)
  }

  /** The `width` low-order bytes of `n`, least significant first. */
  function LittleEndian(n: nat, width: nat): (r: Bytes)
    ensures |r| == width
  {
    if width == 0 then [] else [n % 256] + LittleEndian(n / 256, width - 1)
  }

  lemma {:induction false} LittleEndianInjective(a: nat, b: nat, width: nat)
    requires a < Power256(width) && b < Power256(width)
    requires LittleEndian(a, width) == LittleEndian(b, width)
    ensures a == b
  {
    if width > 0 {
      var ra, rb := LittleEndian(a, width), LittleEndian(b, width);
      assert a % 256 == ra[0] == rb[0] == b % 256;
      assert LittleEndian(a / 256, width - 1) == ra[1..] == rb[1..] == LittleEndian(b / 256, width - 1);
      LittleEndianInjective(a / 256, b / 256, width - 1);
    }
  }

  function U64(n: nat): (r: Bytes)
    ensures |r| == 8
  {
    LittleEndian(n, 8)
  }

  const U64_LIMIT: nat := 0x1_0000_0000_0000_0000

  lemma U64Injective(a: nat, b: nat)
    requires a < U64_LIMIT && b < U64_LIMIT && U64(a) == U64(b)
    ensures a == b
  {
    Power256Is();
    LittleEndianInjective(a, b, 8);
  }

  /** The number that the bytes spell, least significant first. */
  function Spelled(bytes: Bytes): nat {
    if bytes == [] then 0 else bytes[0] + 256 * Spelled(bytes[1..])
  }

  lemma {:induction false} SpelledBack(bytes: Bytes)
    ensures Spelled(bytes) < Power256(|bytes|) && LittleEndian(Spelled(bytes), |bytes|) == bytes
  {
    if bytes != [] {
      SpelledBack(bytes[1..]);
      assert Spelled(bytes) % 256 == bytes[0] && Spelled(bytes) / 256 == Spelled(bytes[1..]);
      assert bytes == [bytes[0]] + bytes[1..];
    }
  }

  /** Any eight bytes are the form of a 64-bit number. */
  lemma U64Spelled(bytes: Bytes)
    requires |bytes| == 8
    ensures Spelled(bytes) < U64_LIMIT && U64(Spelled(bytes)) == bytes
  {
    SpelledBack(bytes);
    Power256Is();
  }

  lemma Power256Is()
    ensures Power256(8) == U64_LIMIT
  {
    assert Power256(2) == 0x1_0000;
    assert Power256(4) == 0x1_0000_0000;
    assert Power256(6) == 0x1_0000_0000_0000;
  }

  /** Parts of equal length at the front of equal byte strings are equal. */
  lemma SplitAtLength(a: Bytes, x: Bytes, b: Bytes, y: Bytes)
    requires a + x == b + y && |a| == |b|
    ensures a == b && x == y
  {
    assert a == (a + x)[..|a|] && b == (b + y)[..|b|];
    assert x == (a + x)[|a|..] && y == (b + y)[|b|..];
  }

  predicate NoNul(s: Bytes) {
    0 !in s
  }

  function Terminated(s: Bytes): Bytes {
    s + [0]
  }

  /** A string without NUL ends at the first one. */
  lemma SplitAtNul(s: Bytes, x: Bytes, t: Bytes, y: Bytes)
    requires NoNul(s) && NoNul(t) && Terminated(s) + x == Terminated(t) + y
    ensures s == t && x == y
  {
    var all := Terminated(s) + x;
    assert all[|s|] == 0 && (Terminated(t) + y)[|t|] == 0;
    assert forall i :: 0 <= i < |s| ==> all[i] == s[i] && s[i] in s;
    assert forall i :: 0 <= i < |t| ==> (Terminated(t) + y)[i] == t[i] && t[i] in t;
    SplitAtLength(Terminated(s), x, Terminated(t), y);
    SplitAtLength(s, [0], t, [0]);
  }
}
