/** Substring search and trimming on strings, as Rust's `str` offers them. */
module Text {
  import opened Wrappers

  predicate MatchesAt(s: string, pat: string, i: nat) {
    i + |pat| <= |s| && forall k :: 0 <= k < |pat| ==> s[i + k] == pat[k]
  }

  /** Position of the first occurrence of `pat` at or after `from`. */
  function Find(s: string, pat: string, from: nat): (r: Option<nat>)
    ensures r.Some? ==> from <= r.value && MatchesAt(s, pat, r.value)
    ensures r.Some? ==> forall j :: from <= j < r.value ==> !MatchesAt(s, pat, j)
    ensures r.None? ==> forall j :: from <= j ==> !MatchesAt(s, pat, j)
    decreases |s| - from
  {
    if from + |pat| > |s| then None
    else if MatchesAt(s, pat, from) then Some(from)
    else Find(s, pat, from + 1)
  }

  /** Position of the last occurrence of `pat` that starts below `bound`. */
  function RFind(s: string, pat: string, bound: nat): (r: Option<nat>)
    ensures r.Some? ==> r.value < bound && MatchesAt(s, pat, r.value)
    ensures r.Some? ==> forall j :: r.value < j < bound ==> !MatchesAt(s, pat, j)
    ensures r.None? ==> forall j :: 0 <= j < bound ==> !MatchesAt(s, pat, j)
  {
    if bound == 0 then None
    else if MatchesAt(s, pat, bound - 1) then Some(bound - 1)
    else RFind(s, pat, bound - 1)
  }

  ghost predicate Occurs(s: string, pat: string) {
    exists j: nat :: MatchesAt(s, pat, j)
  }

  lemma MatchInRight(a: string, b: string, pat: string, i: nat)
    ensures MatchesAt(a + b, pat, |a| + i) <==> MatchesAt(b, pat, i)
  {
  }

  lemma MatchInLeft(a: string, b: string, pat: string, i: nat)
    requires i + |pat| <= |a|
    ensures MatchesAt(a + b, pat, i) <==> MatchesAt(a, pat, i)
  {
  }

  /** What a match says about one character. */
  lemma MatchedChar(s: string, pat: string, i: nat, k: nat)
    requires MatchesAt(s, pat, i) && k < |pat|
    ensures s[i + k] == pat[k]
  {
  }

  lemma MatchInSlice(s: string, pat: string, i: nat, end: nat)
    requires i + |pat| <= end <= |s| && MatchesAt(s, pat, i)
    ensures MatchesAt(s[i..end], pat, 0)
  {
  }

  lemma FindsAt(s: string, pat: string, from: nat, at: nat)
    requires from <= at && MatchesAt(s, pat, at) && forall j: nat :: from <= j < at ==> !MatchesAt(s, pat, j)
    ensures Find(s, pat, from) == Some(at)
  {
    hide MatchesAt;
  }

  lemma FindInRight(a: string, b: string, pat: string, from: nat)
    ensures Find(a + b, pat, |a| + from) ==
            match Find(b, pat, from) case None => None case Some(k) => Some(|a| + k)
  {
    var left, right := Find(a + b, pat, |a| + from), Find(b, pat, from);
    if left.Some? {
      MatchInRight(a, b, pat, left.value - |a|);
    }
    if right.Some? {
      MatchInRight(a, b, pat, right.value);
    }
  }

  /** A first occurrence is not moved by text appended behind it. */
  lemma FindInLeft(a: string, b: string, pat: string, from: nat)
    requires Find(a, pat, from).Some?
    ensures Find(a + b, pat, from) == Find(a, pat, from)
  {
    var k := Find(a, pat, from).value;
    forall i: nat | i <= k
      ensures MatchesAt(a + b, pat, i) <==> MatchesAt(a, pat, i)
    {
      MatchInLeft(a, b, pat, i);
    }
  }

  /** Unicode `White_Space`, the property `str::trim` tests. */
  predicate IsWhitespace(c: char) {
    var n := c as int;
    9 <= n <= 13 || n == 32 || n == 0x85 || n == 0xA0 || n == 0x1680 || 0x2000 <= n <= 0x200A
    || n == 0x2028 || n == 0x2029 || n == 0x202F || n == 0x205F || n == 0x3000
  }

  function TrimEnd(s: string): (r: string)
    ensures r <= s
    ensures r == "" || !IsWhitespace(r[|r| - 1])
    ensures forall i :: |r| <= i < |s| ==> IsWhitespace(s[i])
  {
    if s == "" || !IsWhitespace(s[|s| - 1]) then s else TrimEnd(s[..|s| - 1])
  }

  function TrimStart(s: string): (r: string)
    ensures |r| <= |s| && r == s[|s| - |r|..]
    ensures r == "" || !IsWhitespace(r[0])
    ensures forall i :: 0 <= i < |s| - |r| ==> IsWhitespace(s[i])
  {
    if s == "" || !IsWhitespace(s[0]) then s else TrimStart(s[1..])
  }

  function Trim(s: string): string {
    TrimEnd(TrimStart(s))
  }

  predicate Trimmed(s: string) {
    s != "" ==> !IsWhitespace(s[0]) && !IsWhitespace(s[|s| - 1])
  }

  lemma TrimIsTrimmed(s: string)
    ensures Trimmed(Trim(s))
    ensures Trimmed(s) ==> Trim(s) == s
  {
    var t := TrimStart(s);
    if Trim(s) != "" {
      assert Trim(s)[0] == t[0];
    }
  }

  lemma TrimEndFixed(s: string)
    ensures TrimEnd(s) == s <==> s == "" || !IsWhitespace(s[|s| - 1])
  {
  }

  /** A blank text is one of whitespace only; it trims to nothing. */
  lemma TrimEmpty(s: string)
    ensures Trim(s) == "" <==> forall i :: 0 <= i < |s| ==> IsWhitespace(s[i])
    ensures Trim(s) == "" <==> TrimEnd(s) == ""
  {
    var t, e := TrimStart(s), TrimEnd(s);
    assert t != "" ==> !IsWhitespace(s[|s| - |t|]);
    assert e != "" ==> !IsWhitespace(s[|e| - 1]);
    assert t != "" ==> t[0] == s[|s| - |t|];
  }
}
