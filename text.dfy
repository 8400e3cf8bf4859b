/** The JavaScript string built-ins the application relies on, over `string`
    (a sequence of characters): `toLowerCase`, `startsWith`, `includes`,
    `lastIndexOf`, and the decimal rendering of a non-negative integer. */
module Text {

  /** Lower-cases one ASCII letter; every other character is unchanged. */
  function LowerChar(c: char): char {
    if 'A' <= c <= 'Z' then (c as int + 32) as char else c
  }

  /** `s.toLowerCase()`, restricted to ASCII letters. */
  function ToLower(s: string): (r: string)
    ensures |r| == |s|
    ensures forall i :: 0 <= i < |s| ==> r[i] == LowerChar(s[i])
  {
    if s == [] then [] else [LowerChar(s[0])] + ToLower(s[1..])
  }

  /** Lower-casing never creates or removes a dot. */
  lemma LowerKeepsDots(s: string)
    ensures forall i :: 0 <= i < |s| ==> (ToLower(s)[i] == '.' <==> s[i] == '.')
  {
  }

  /** `hay.includes(needle)`: `needle` occurs in `hay` as a contiguous block. */
  predicate Contains(hay: string, needle: string)
    decreases |hay|
  {
    needle <= hay || (hay != [] && Contains(hay[1..], needle))
  }

  /** An empty string occurs nowhere but in itself-sized gaps: a non-empty
      needle never occurs in the empty string, and every string contains "". */
  lemma ContainsEmpty(hay: string, needle: string)
    ensures Contains(hay, "")
    ensures needle != [] ==> !Contains("", needle)
  {
  }

  /** A copy of `needle` starts at offset `k` of `hay`. */
  predicate OccursAt(hay: string, needle: string, k: int) {
    0 <= k <= |hay| && needle <= hay[k..]
  }

  /** An occurrence at any offset is found by `Contains`. */
  lemma {:induction false} OccursContains(hay: string, needle: string, k: int)
    requires OccursAt(hay, needle, k)
    ensures Contains(hay, needle)
    decreases k
  {
    if k == 0 {
      assert hay[0..] == hay;
    } else {
      assert hay[1..][k - 1..] == hay[k..];
      OccursContains(hay[1..], needle, k - 1);
    }
  }

  /** `Contains` finds an offset where a copy of `needle` starts. */
  lemma {:induction false} ContainsWitness(hay: string, needle: string) returns (k: int)
    requires Contains(hay, needle)
    ensures OccursAt(hay, needle, k)
    decreases |hay|
  {
    if needle <= hay {
      assert hay[0..] == hay;
      k := 0;
    } else {
      var k' := ContainsWitness(hay[1..], needle);
      assert hay[1..][k'..] == hay[k' + 1..];
      k := k' + 1;
    }
  }

  /** `includes` agrees with the positional reading: some offset `k` starts a
      copy of `needle`. */
  lemma ContainsAt(hay: string, needle: string)
    ensures Contains(hay, needle) <==> exists k :: OccursAt(hay, needle, k)
  {
    if Contains(hay, needle) {
      var k := ContainsWitness(hay, needle);
    }
    if exists k :: OccursAt(hay, needle, k) {
      var k :| OccursAt(hay, needle, k);
      OccursContains(hay, needle, k);
    }
  }

  /** `s.lastIndexOf(c)`: the position of the last `c`, or -1 when there is none. */
  function LastIndexOf(s: string, c: char): (r: int)
    ensures -1 <= r < |s|
    ensures r >= 0 ==> s[r] == c
    ensures forall j :: r < j < |s| ==> s[j] != c
    ensures r == -1 <==> c !in s
  {
    if s == [] then -1
    else if s[|s| - 1] == c then |s| - 1
    else LastIndexOf(s[..|s| - 1], c)
  }

  /** The position of the first `c`, or -1 when there is none. */
  function IndexOf(s: string, c: char): (r: int)
    ensures -1 <= r < |s|
    ensures r >= 0 ==> s[r] == c
    ensures forall j :: 0 <= j < |s| && (r == -1 || j < r) ==> s[j] != c
  {
    if s == [] then -1
    else if s[0] == c then 0
    else var k := IndexOf(s[1..], c); if k == -1 then -1 else k + 1
  }

  predicate IsDigit(c: char) {
    '0' <= c <= '9'
  }

  function DigitChar(d: nat): (c: char)
    requires d < 10
    ensures IsDigit(c)
  {
    ('0' as int + d) as char
  }

  function DigitValue(c: char): (d: nat)
    requires IsDigit(c)
    ensures d < 10 && DigitChar(d) == c
  {
    c as int - '0' as int
  }

  /** The decimal rendering of `n`, as template-literal interpolation
      (`${n}`) writes a non-negative integer. */
  function NatToString(n: nat): (s: string)
    ensures |s| >= 1
    ensures forall i :: 0 <= i < |s| ==> IsDigit(s[i])
  {
    if n < 10 then [DigitChar(n)] else NatToString(n / 10) + [DigitChar(n % 10)]
  }

  /** Reads back a string of decimal digits. */
  function ParseNat(s: string): nat
    requires forall i :: 0 <= i < |s| ==> IsDigit(s[i])
  {
    if s == [] then 0 else 10 * ParseNat(s[..|s| - 1]) + DigitValue(s[|s| - 1])
  }

  /** Reading back the decimal rendering gives the number. */
  lemma {:induction false} ParseNatToString(n: nat)
    ensures ParseNat(NatToString(n)) == n
  {
    if n >= 10 {
      var s := NatToString(n);
      assert s[..|s| - 1] == NatToString(n / 10);
      ParseNatToString(n / 10);
    }
  }

  /** `s.substring(start)`: the suffix from `start`, with `start` clamped to
      `[0, |s|]`. */
  function Substring(s: string, start: int): (r: string)
    ensures r == s[if start < 0 then 0 else if start > |s| then |s| else start..]
  {
    if start < 0 then s else if start > |s| then [] else s[start..]
  }
}
