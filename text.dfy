/** The few `str` operations the scraper applies to text it receives:
    `find`, `rfind`, `lower`, `startswith` and substring tests. */
module Text {

  /** The index of the first character at or after start that satisfies p,
      or |s| when there is none. */
  function FindFrom(s: string, start: nat, p: char -> bool): (i: nat)
    requires start <= |s|
    ensures start <= i <= |s|
    ensures i < |s| ==> p(s[i])
    ensures forall j :: start <= j < i ==> !p(s[j])
    decreases |s| - start
  {
    if start == |s| || p(s[start]) then start else FindFrom(s, start + 1, p)
  }

  /** `s.find(c)`, except that a missing c gives |s| rather than -1. */
  function Find(s: string, c: char): (i: nat)
    ensures i <= |s|
    ensures i < |s| ==> s[i] == c
    ensures forall j :: 0 <= j < i ==> s[j] != c
  {
    FindFrom(s, 0, x => x == c)
  }

  /** `s.rfind(c)`: the index of the last c, or -1. */
  function RFind(s: string, c: char): (i: int)
    ensures -1 <= i < |s|
    ensures i >= 0 ==> s[i] == c
    ensures forall j :: i < j < |s| ==> s[j] != c
    decreases |s|
  {
    if s == [] then -1
    else if s[|s| - 1] == c then |s| - 1
    else RFind(s[..|s| - 1], c)
  }

  function LowerChar(c: char): char
  {
    if 'A' <= c <= 'Z' then (c as int + 32) as char else c
  }

  /** `s.lower()` on ASCII letters. */
  function Lower(s: string): (r: string)
    ensures |r| == |s|
  {
    seq(|s|, i requires 0 <= i < |s| => LowerChar(s[i]))
  }

  predicate OccursAt(s: string, t: string, i: int)
  {
    0 <= i <= |s| - |t| && s[i..i + |t|] == t
  }

  /** `t in s` for two strings: t occurs in s as a contiguous piece. */
  predicate Contains(s: string, t: string)
  {
    exists i :: 0 <= i <= |s| - |t| && OccursAt(s, t, i)
  }

  predicate StartsWith(s: string, t: string)
  {
    |t| <= |s| && s[..|t|] == t
  }
}
