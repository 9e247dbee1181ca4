/**
 * The handful of Python `str` operations the two scripts rely on, stated
 * over `seq<char>`. Case mapping and whitespace are ASCII only.
 */
module Strings {

  /** `c.isspace()` restricted to the ASCII range. */
  predicate IsSpace(c: char) {
    c == ' ' || c == '\t' || c == '\n' || c == '\r' || c == '\U{0B}' || c == '\U{0C}'
    || ('\U{1C}' <= c <= '\U{1F}')
  }

  predicate AllSpace(s: string) {
    forall i :: 0 <= i < |s| ==> IsSpace(s[i])
  }

  predicate IsUpper(c: char) { 'A' <= c <= 'Z' }
  predicate IsLower(c: char) { 'a' <= c <= 'z' }
  predicate IsLetter(c: char) { IsUpper(c) || IsLower(c) }

  function LowerChar(c: char): (r: char)
    ensures IsLetter(c) ==> IsLower(r)
    ensures !IsUpper(c) ==> r == c
  {
    if IsUpper(c) then (c as int - 'A' as int + 'a' as int) as char else c
  }

  function UpperChar(c: char): (r: char)
    ensures IsLetter(c) ==> IsUpper(r)
    ensures !IsLower(c) ==> r == c
  {
    if IsLower(c) then (c as int - 'a' as int + 'A' as int) as char else c
  }

  /** `s.lower()` */
  function Lower(s: string): (r: string)
    ensures |r| == |s|
    ensures forall i :: 0 <= i < |s| ==> r[i] == LowerChar(s[i])
  {
    seq(|s|, i requires 0 <= i < |s| => LowerChar(s[i]))
  }

  /** `s.replace(from, to)` for single characters. */
  function ReplaceChar(s: string, from: char, to: char): (r: string)
    ensures |r| == |s|
    ensures forall i :: 0 <= i < |s| ==> r[i] == (if s[i] == from then to else s[i])
  {
    seq(|s|, i requires 0 <= i < |s| => if s[i] == from then to else s[i])
  }

  /**
   * `s.title()`: a letter is upper-cased when the character before it is
   * not a letter, lower-cased when it is; every other character is kept.
   */
  function Title(s: string): string {
    TitleAfter(s, false)
  }

  function TitleAfter(s: string, previousCased: bool): string {
    if s == [] then []
    else
      var c := s[0];
      [if !IsLetter(c) then c else if previousCased then LowerChar(c) else UpperChar(c)]
      + TitleAfter(s[1..], IsLetter(c))
  }

  /** What `title()` does to position `i`, judged from its left neighbour alone. */
  function TitleCharAt(s: string, i: nat): char
    requires i < |s|
  {
    if !IsLetter(s[i]) then s[i]
    else if i > 0 && IsLetter(s[i - 1]) then LowerChar(s[i])
    else UpperChar(s[i])
  }

  lemma {:induction false} TitleAfterAt(s: string, previousCased: bool, i: nat)
    requires i < |s|
    ensures |TitleAfter(s, previousCased)| == |s|
    ensures TitleAfter(s, previousCased)[i] ==
      if !IsLetter(s[i]) then s[i]
      else if (if i == 0 then previousCased else IsLetter(s[i - 1])) then LowerChar(s[i])
      else UpperChar(s[i])
  {
    if i == 0 {
      TitleAfterLength(s[1..], IsLetter(s[0]));
    } else {
      TitleAfterAt(s[1..], IsLetter(s[0]), i - 1);
    }
  }

  lemma {:induction false} TitleAfterLength(s: string, previousCased: bool)
    ensures |TitleAfter(s, previousCased)| == |s|
  {
    if s != [] {
      TitleAfterLength(s[1..], IsLetter(s[0]));
    }
  }

  /** `title()` keeps the length and rewrites each character from its left neighbour. */
  lemma TitleIsPointwise(s: string)
    ensures |Title(s)| == |s|
    ensures forall i :: 0 <= i < |s| ==> Title(s)[i] == TitleCharAt(s, i)
  {
    TitleAfterLength(s, false);
    forall i | 0 <= i < |s|
      ensures Title(s)[i] == TitleCharAt(s, i)
    {
      TitleAfterAt(s, false, i);
    }
  }

  /** `sub` occurs in `s` starting at index `i`. */
  predicate OccursAt(s: string, sub: string, i: int) {
    0 <= i && i + |sub| <= |s| && s[i..i + |sub|] == sub
  }

  /** Python's `sub in s`. */
  predicate Contains(s: string, sub: string) {
    exists i | 0 <= i <= |s| - |sub| :: OccursAt(s, sub, i)
  }

  /** An occurrence inside an occurrence is an occurrence. */
  lemma ContainsTransitive(s: string, mid: string, sub: string)
    requires Contains(s, mid) && Contains(mid, sub)
    ensures Contains(s, sub)
  {
    var i :| 0 <= i <= |s| - |mid| && OccursAt(s, mid, i);
    var j :| 0 <= j <= |mid| - |sub| && OccursAt(mid, sub, j);
    var w := s[i + j..i + j + |sub|];
    forall k | 0 <= k < |sub|
      ensures w[k] == sub[k]
    {
      calc {
        w[k];
        s[i..i + |mid|][j + k];
        mid[j + k];
        mid[j..j + |sub|][k];
      }
    }
    assert OccursAt(s, sub, i + j);
  }

  /**
   * `s.find(sub, start)`: the least index at or after `start` where `sub`
   * occurs, or -1. A negative `start` counts from the end, as in Python.
   */
  function Find(s: string, sub: string, start: int): (r: int)
    ensures r == -1 || (0 <= r && OccursAt(s, sub, r))
    ensures r >= 0 ==> r >= start
    ensures r == -1 <==> forall k :: FindStart(s, start) <= k ==> !OccursAt(s, sub, k)
    ensures r >= 0 ==> FindStart(s, start) <= r &&
                        forall k :: FindStart(s, start) <= k < r ==> !OccursAt(s, sub, k)
  {
    FindFrom(s, sub, FindStart(s, start))
  }

  /** Where Python starts searching for a given `start` argument. */
  function FindStart(s: string, start: int): (r: nat)
    ensures start >= 0 ==> r == start
    ensures start < 0 ==> r <= |s|
  {
    if start >= 0 then start
    else if start + |s| >= 0 then start + |s|
    else 0
  }

  function FindFrom(s: string, sub: string, i: nat): (r: int)
    ensures r == -1 || (i <= r && OccursAt(s, sub, r))
    ensures r == -1 <==> forall k :: i <= k ==> !OccursAt(s, sub, k)
    ensures r >= 0 ==> forall k :: i <= k < r ==> !OccursAt(s, sub, k)
    decreases |s| - i
  {
    if i + |sub| > |s| then -1
    else if OccursAt(s, sub, i) then i
    else FindFrom(s, sub, i + 1)
  }

  /** `sub in s` is the same question as `s.find(sub) != -1`. */
  lemma FindAgreesWithContains(s: string, sub: string)
    ensures Find(s, sub, 0) >= 0 <==> Contains(s, sub)
  {
    if Find(s, sub, 0) >= 0 {
      var r := Find(s, sub, 0);
      assert 0 <= r <= |s| - |sub| && OccursAt(s, sub, r);
    }
  }

  /** The first index at or after `i` that does not hold whitespace, or `|s|`. */
  function SpaceEnd(s: string, i: nat): (a: nat)
    requires i <= |s|
    ensures i <= a <= |s|
    decreases |s| - i
  {
    if i < |s| && IsSpace(s[i]) then SpaceEnd(s, i + 1) else i
  }

  /** The end of `s[lo..j]` once trailing whitespace is dropped. */
  function SpaceStart(s: string, lo: nat, j: nat): (b: nat)
    requires lo <= j <= |s|
    ensures lo <= b <= j
    decreases j
  {
    if j > lo && IsSpace(s[j - 1]) then SpaceStart(s, lo, j - 1) else j
  }

  lemma {:induction false} SpaceEndSkipsSpace(s: string, i: nat)
    requires i <= |s|
    ensures forall k :: i <= k < SpaceEnd(s, i) ==> IsSpace(s[k])
    ensures SpaceEnd(s, i) < |s| ==> !IsSpace(s[SpaceEnd(s, i)])
    decreases |s| - i
  {
    if i < |s| && IsSpace(s[i]) {
      SpaceEndSkipsSpace(s, i + 1);
    }
  }

  lemma {:induction false} SpaceStartSkipsSpace(s: string, lo: nat, j: nat)
    requires lo <= j <= |s|
    ensures forall k :: SpaceStart(s, lo, j) <= k < j ==> IsSpace(s[k])
    ensures SpaceStart(s, lo, j) > lo ==> !IsSpace(s[SpaceStart(s, lo, j) - 1])
    decreases j
  {
    if j > lo && IsSpace(s[j - 1]) {
      SpaceStartSkipsSpace(s, lo, j - 1);
    }
  }

  /** How many characters `strip()` cuts from the front of `s`. */
  function StripOffset(s: string): nat
    ensures StripOffset(s) <= |s|
  {
    SpaceEnd(s, 0)
  }

  /** `s.strip()`: leading whitespace cut, then trailing whitespace. */
  function Strip(s: string): (r: string)
    ensures |r| <= |s|
  {
    s[StripOffset(s)..SpaceStart(s, StripOffset(s), |s|)]
  }

  /**
   * The stripped text is the piece of `s` that starts at `StripOffset(s)`;
   * it neither starts nor ends with whitespace, and only whitespace was cut
   * on either side.
   */
  lemma StripCutsOnlySpace(s: string)
    ensures StripOffset(s) + |Strip(s)| <= |s|
    ensures Strip(s) == s[StripOffset(s)..StripOffset(s) + |Strip(s)|]
    ensures AllSpace(s[..StripOffset(s)]) && AllSpace(s[StripOffset(s) + |Strip(s)|..])
    ensures Strip(s) == [] || (!IsSpace(Strip(s)[0]) && !IsSpace(Strip(s)[|Strip(s)| - 1]))
  {
    var a := StripOffset(s);
    var b := SpaceStart(s, a, |s|);
    SpaceEndSkipsSpace(s, 0);
    SpaceStartSkipsSpace(s, a, |s|);
    assert forall k :: 0 <= k < a ==> s[..a][k] == s[k];
    assert forall k :: 0 <= k < |s| - b ==> s[b..][k] == s[b + k];
  }

  /** `sep.join(parts)` */
  function Join(parts: seq<string>, sep: string): string {
    if |parts| == 0 then ""
    else if |parts| == 1 then parts[0]
    else parts[0] + sep + Join(parts[1..], sep)
  }

  /** Python's `s[:k]`, including negative `k`, which counts from the end. */
  function PrefixSlice(s: string, k: int): (r: string)
    ensures 0 <= k <= |s| ==> r == s[..k]
    ensures k > |s| ==> r == s
    ensures k < 0 ==> r == s[..if |s| + k >= 0 then |s| + k else 0]
  {
    if k >= 0 then (if k <= |s| then s[..k] else s)
    else if |s| + k >= 0 then s[..|s| + k]
    else []
  }
}
