/** The JavaScript string primitives that the portal relies on, over seq<char>. */
module Strings {

  /** `s.lastIndexOf(c)`: the last position of c in s, or -1. */
  function LastIndexOf(s: string, c: char): (r: int)
    ensures -1 <= r < |s|
    ensures r == -1 <==> c !in s
    ensures r >= 0 ==> s[r] == c && c !in s[r + 1..]
  {
    if |s| == 0 then -1
    else if s[|s| - 1] == c then |s| - 1
    else LastIndexOf(s[..|s| - 1], c)
  }

  predicate IsPrefix(p: string, s: string) {
    |p| <= |s| && s[..|p|] == p
  }

  /** `sub` occurs in `s` starting at position k. */
  predicate OccursAt(s: string, sub: string, k: int) {
    0 <= k && k + |sub| <= |s| && s[k..k + |sub|] == sub
  }

  /** `s.indexOf(sub) > -1` */
  predicate Contains(s: string, sub: string) {
    exists k | 0 <= k <= |s| - |sub| :: OccursAt(s, sub, k)
  }

  /** The first position at which `sub` occurs in `s`, or -1 (`s.indexOf(sub)`). */
  function IndexOf(s: string, sub: string): (r: int)
    ensures r == -1 || OccursAt(s, sub, r)
    ensures r >= 0 ==> forall k :: 0 <= k < r ==> !OccursAt(s, sub, k)
    ensures r == -1 <==> !Contains(s, sub)
  {
    IndexOfFrom(s, sub, 0)
  }

  function IndexOfFrom(s: string, sub: string, from: nat): (r: int)
    requires from <= |s| + 1
    ensures r == -1 || (from <= r && OccursAt(s, sub, r))
    ensures r >= 0 ==> forall k :: from <= k < r ==> !OccursAt(s, sub, k)
    ensures r == -1 <==> forall k :: from <= k ==> !OccursAt(s, sub, k)
    decreases |s| + 1 - from
  {
    if from + |sub| > |s| then -1
    else if s[from..from + |sub|] == sub then from
    else IndexOfFrom(s, sub, from + 1)
  }

  /** `s.replace(pat, rep)` with a string pattern: only the first occurrence is replaced. */
  function ReplaceFirst(s: string, pat: string, rep: string): (r: string)
    ensures !Contains(s, pat) ==> r == s
    ensures Contains(s, pat) ==>
      exists k :: OccursAt(s, pat, k) && r == s[..k] + rep + s[k + |pat|..]
  {
    var k := IndexOf(s, pat);
    if k < 0 then s else s[..k] + rep + s[k + |pat|..]
  }

  /** `s.replace(/pat/g, rep)`: every non-overlapping occurrence, scanning left to right. */
  function ReplaceAll(s: string, pat: string, rep: string): (r: string)
    requires |pat| > 0
    ensures !Contains(s, pat) ==> r == s
    decreases |s|
  {
    var k := IndexOf(s, pat);
    if k < 0 then s else s[..k] + rep + ReplaceAll(s[k + |pat|..], pat, rep)
  }

  function DigitChar(d: nat): char
    requires d < 10
  {
    ('0' as int + d) as char
  }

  /** The decimal text of a count, as template literals print it. */
  function NatToString(n: nat): (r: string)
    ensures |r| > 0
    ensures forall i :: 0 <= i < |r| ==> '0' <= r[i] <= '9'
    ensures n < 10 <==> |r| == 1
  {
    if n < 10 then [DigitChar(n)] else NatToString(n / 10) + [DigitChar(n % 10)]
  }

  function DigitValue(c: char): nat
    requires '0' <= c <= '9'
  {
    c as nat - '0' as nat
  }

  function ParseNat(s: string): nat
    requires forall i :: 0 <= i < |s| ==> '0' <= s[i] <= '9'
  {
    if s == [] then 0 else 10 * ParseNat(s[..|s| - 1]) + DigitValue(s[|s| - 1])
  }

  /** Printing a count and reading it back gives the count. */
  lemma {:induction false} NatToStringRoundTrip(n: nat)
    ensures ParseNat(NatToString(n)) == n
  {
    if n >= 10 {
      NatToStringRoundTrip(n / 10);
      var s := NatToString(n);
      var init := NatToString(n / 10);
      assert s == init + [DigitChar(n % 10)];
      assert s[..|s| - 1] == init;
      assert DigitValue(s[|s| - 1]) == n % 10;
    }
  }

  /** Distinct counts print differently. */
  lemma NatToStringInjective(m: nat, n: nat)
    requires NatToString(m) == NatToString(n)
    ensures m == n
  {
    NatToStringRoundTrip(m);
    NatToStringRoundTrip(n);
  }

  /** The text before the first c, or all of s: a query value up to its delimiter. */
  function UpTo(s: string, c: char): (r: string)
    ensures c !in r && IsPrefix(r, s)
    ensures |r| < |s| ==> s[|r|] == c
  {
    if s == [] then []
    else if s[0] == c then []
    else [s[0]] + UpTo(s[1..], c)
  }

  /** A value without the delimiter is read back up to the delimiter that follows it. */
  lemma {:induction false} UpToDelimited(v: string, c: char, rest: string)
    requires c !in v
    ensures UpTo(v + ([c] + rest), c) == v
  {
    if v != [] {
      assert (v + ([c] + rest))[1..] == v[1..] + ([c] + rest);
      UpToDelimited(v[1..], c, rest);
    }
  }

  /** Dropping a prefix leaves the rest. */
  lemma DropPrefix(p: string, rest: string)
    ensures (p + rest)[|p|..] == rest
  {
  }

  /** A text made of a head, a body and a tail starts with the head and ends with the tail. */
  lemma Framed(head: string, body: string, tail: string)
    ensures IsPrefix(head, head + body + tail)
    ensures (head + body + tail)[|head + body|..] == tail
  {
  }

  /** Regrouping a concatenation around a prefix. */
  lemma Regroup3<T>(a: seq<T>, b: seq<T>, c: seq<T>, d: seq<T>)
    ensures a + (b + (c + d)) == (a + b + c) + d
    ensures (a + b) + (c + d) == a + ((b + c) + d)
    ensures (a + (b + c)) + d == a + (b + (c + d))
  {
  }

  lemma Regroup4<T>(a: seq<T>, b: seq<T>, c: seq<T>, d: seq<T>, y: seq<T>)
    ensures a + (b + (c + (d + y))) == a + b + c + d + y
  {
  }
}
