/**
  The parts of Python's `str` behaviour that the inference engine relies on:
  `isspace`, the line boundaries of `splitlines`, `strip`, `lower` (on the
  ASCII letters), the substring test `in`, and the ordering `<`.
  Strings are sequences of Unicode code points, as in Python 3.
*/
module Strings {

  /** `c.isspace()`: the characters Python treats as whitespace. */
  predicate IsSpace(c: char) {
    var n := c as int;
    (9 <= n <= 13) || (28 <= n <= 32) || n == 0x85 || n == 0xA0 || n == 0x1680
    || (0x2000 <= n <= 0x200A) || n == 0x2028 || n == 0x2029 || n == 0x202F
    || n == 0x205F || n == 0x3000
  }

  /** The characters at which `str.splitlines` ends a line. */
  predicate IsLineBreak(c: char) {
    var n := c as int;
    (10 <= n <= 13) || (28 <= n <= 30) || n == 0x85 || n == 0x2028 || n == 0x2029
  }

  /** `s.splitlines()[0]` for a non-empty `s`: everything before the first line boundary. */
  function FirstLine(s: string): (line: string)
    ensures line <= s
    ensures forall k :: 0 <= k < |line| ==> !IsLineBreak(line[k])
    ensures |line| < |s| ==> IsLineBreak(s[|line|])
  {
    if s == [] || IsLineBreak(s[0]) then [] else [s[0]] + FirstLine(s[1..])
  }

  /** `s.lstrip()`. */
  function StripLeading(s: string): string {
    if s != [] && IsSpace(s[0]) then StripLeading(s[1..]) else s
  }

  /** `lstrip` removes a prefix of whitespace and stops at the first other character. */
  lemma {:induction false} StripLeadingSuffix(s: string)
    ensures var r := StripLeading(s);
      && |r| <= |s| && r == s[|s| - |r|..]
      && (forall k :: 0 <= k < |s| - |r| ==> IsSpace(s[k]))
      && (r == [] || !IsSpace(r[0]))
  {
    if s != [] && IsSpace(s[0]) {
      var t := s[1..];
      StripLeadingSuffix(t);
      var r := StripLeading(t);
      assert r == s[|s| - |r|..] by {
        assert t[|t| - |r|..] == s[|s| - |r|..];
      }
      forall k | 1 <= k < |s| - |r|
        ensures IsSpace(s[k])
      {
        assert s[k] == t[k - 1];
      }
    }
  }

  /** `s.rstrip()`. */
  function StripTrailing(s: string): string {
    if s != [] && IsSpace(s[|s| - 1]) then StripTrailing(s[..|s| - 1]) else s
  }

  /** `rstrip` removes a suffix of whitespace and stops at the last other character. */
  lemma {:induction false} StripTrailingPrefix(s: string)
    ensures var r := StripTrailing(s);
      && |r| <= |s| && r == s[..|r|]
      && (forall k :: |r| <= k < |s| ==> IsSpace(s[k]))
      && (r == [] || !IsSpace(r[|r| - 1]))
  {
    if s != [] && IsSpace(s[|s| - 1]) {
      var t := s[..|s| - 1];
      StripTrailingPrefix(t);
      var r := StripTrailing(t);
      assert r == s[..|r|] by {
        assert t[..|r|] == s[..|r|];
      }
      forall k | |r| <= k < |s| - 1
        ensures IsSpace(s[k])
      {
        assert s[k] == t[k];
      }
    }
  }

  /** `r` is the slice of `s` at `i`, and only whitespace lies outside it. */
  predicate TrimmedAt(s: string, r: string, i: nat) {
    i + |r| <= |s| && r == s[i..i + |r|]
    && (forall k :: 0 <= k < i ==> IsSpace(s[k]))
    && (forall k :: i + |r| <= k < |s| ==> IsSpace(s[k]))
  }

  /** `s.strip()`: `s` with its leading and trailing whitespace removed. */
  function Strip(s: string): string {
    StripTrailing(StripLeading(s))
  }

  /** What `strip` leaves is a slice of `s` with only whitespace outside it. */
  lemma StripSlice(s: string)
    ensures exists i: nat :: TrimmedAt(s, Strip(s), i)
  {
    var left := StripLeading(s);
    var r := StripTrailing(left);
    StripLeadingSuffix(s);
    var i: nat := |s| - |left|;
    assert left == s[i..];
    assert r == left[..|r|] && forall k :: |r| <= k < |left| ==> IsSpace(left[k]) by {
      StripTrailingPrefix(left);
    }
    assert r == s[i..i + |r|];
    forall k | i + |r| <= k < |s|
      ensures IsSpace(s[k])
    {
      assert s[k] == left[k - i];
    }
    assert Strip(s) == r;
    assert TrimmedAt(s, r, i);
  }

  /**
    What `strip` leaves neither starts nor ends with whitespace, and a string
    that starts with a non-whitespace character keeps it.
  */
  lemma StripEdges(s: string)
    ensures var r := Strip(s);
      && (r == [] || (!IsSpace(r[0]) && !IsSpace(r[|r| - 1])))
      && (s != [] && !IsSpace(s[0]) ==> r != [] && r[0] == s[0])
  {
    var left := StripLeading(s);
    var r := StripTrailing(left);
    StripLeadingSuffix(s);
    StripTrailingPrefix(left);
    if r != [] {
      assert r[0] == left[0];
    }
    if s != [] && !IsSpace(s[0]) {
      assert left == s;
    }
  }

  /** `strip` leaves a string that neither starts nor ends with whitespace as it is. */
  lemma StripKeeps(s: string)
    requires s != [] && !IsSpace(s[0]) && !IsSpace(s[|s| - 1])
    ensures Strip(s) == s
  {
    assert StripLeading(s) == s;
  }

  /** `c.lower()` on one character; only the ASCII letters are mapped. */
  function LowerChar(c: char): char {
    if 'A' <= c <= 'Z' then (c as int + 32) as char else c
  }

  /** `s.lower()`, with the ASCII case mapping. */
  function Lower(s: string): (r: string)
    ensures |r| == |s|
    ensures forall k :: 0 <= k < |s| ==> r[k] == LowerChar(s[k])
  {
    seq(|s|, k requires 0 <= k < |s| => LowerChar(s[k]))
  }

  /** A string without ASCII capitals is its own lower case. */
  lemma LowerKeeps(s: string)
    requires forall k :: 0 <= k < |s| ==> !('A' <= s[k] <= 'Z')
    ensures Lower(s) == s
  {
  }

  /** `sub in s`: `sub` occurs in `s` as a contiguous piece. */
  predicate Contains(s: string, sub: string) {
    exists i :: 0 <= i <= |s| && OccursAt(s, sub, i)
  }

  /** `sub` occurs in `s` starting at index `i`. */
  predicate OccursAt(s: string, sub: string, i: nat) {
    i + |sub| <= |s| && s[i..i + |sub|] == sub
  }

  /** The middle of a concatenation occurs in it. */
  lemma ContainsInfix(a: string, b: string, c: string)
    ensures Contains(a + b + c, b)
  {
    assert OccursAt(a + b + c, b, |a|);
  }

  /** The second and fourth of five pieces occur in their concatenation. */
  lemma ContainsPieces(a: string, b: string, c: string, d: string, e: string)
    ensures Contains(a + b + c + d + e, b) && Contains(a + b + c + d + e, d)
  {
    var s := a + b + c + d + e;
    assert s[|a|..|a| + |b|] == b;
    assert OccursAt(s, b, |a|);
    var i := |a| + |b| + |c|;
    assert s[i..i + |d|] == d;
    assert OccursAt(s, d, i);
  }

  /** A lower-case piece of `s` is still there after `s.lower()`. */
  lemma ContainsLowered(s: string, sub: string, i: nat)
    requires i + |sub| <= |s| && s[i..i + |sub|] == sub
    requires forall k :: 0 <= k < |sub| ==> !('A' <= sub[k] <= 'Z')
    ensures Contains(Lower(s), sub)
  {
    var low := Lower(s);
    forall k | 0 <= k < |sub|
      ensures low[i..i + |sub|][k] == sub[k]
    {
      assert s[i + k] == sub[k];
    }
    assert OccursAt(low, sub, i);
  }

  /** Python's `a < b` on `str`: lexicographic by code point, a proper prefix first. */
  predicate Below(a: string, b: string) {
    if a == [] then b != []
    else if b == [] then false
    else if a[0] != b[0] then a[0] < b[0]
    else Below(a[1..], b[1..])
  }

  lemma {:induction false} BelowIrreflexive(a: string)
    ensures !Below(a, a)
  {
    if a != [] {
      BelowIrreflexive(a[1..]);
    }
  }

  lemma {:induction false} BelowTransitive(a: string, b: string, c: string)
    requires Below(a, b) && Below(b, c)
    ensures Below(a, c)
  {
    if a != [] && b != [] && c != [] && a[0] == b[0] && b[0] == c[0] {
      BelowTransitive(a[1..], b[1..], c[1..]);
    }
  }
}
