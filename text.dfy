/** The string operations the sources use: `startswith`, the substring test
    `needle in haystack`, and lower-casing. */
module Text {

  /** Python's `s.startswith(p)`. */
  predicate HasPrefix(s: string, p: string)
    ensures HasPrefix(s, p) ==> |p| <= |s| && forall i :: 0 <= i < |p| ==> s[i] == p[i]
  {
    |p| <= |s| && s[..|p|] == p
  }

  /** Python's `t in s` on strings: `t` occurs in `s` as a contiguous
      piece, that is, it is a prefix of some suffix of `s`. */
  predicate Contains(s: string, t: string)
    ensures Contains(s, t) ==> |t| <= |s|
  {
    HasPrefix(s, t) || (|s| > 0 && Contains(s[1..], t))
  }

  /** A text that starts at no position of `s` is not in `s`. */
  lemma {:induction false} NotContains(s: string, t: string)
    requires forall i :: 0 <= i <= |s| ==> !HasPrefix(s[i..], t)
    ensures !Contains(s, t)
    decreases |s|
  {
    assert s[0..] == s;
    if |s| > 0 {
      forall i | 0 <= i <= |s[1..]|
        ensures !HasPrefix(s[1..][i..], t)
      {
        assert s[1..][i..] == s[i + 1..];
      }
      NotContains(s[1..], t);
    }
  }

  /** A string occurs in every string built around it. */
  lemma {:induction false} ContainsInfix(a: string, t: string, b: string)
    ensures Contains(a + t + b, t)
  {
    if a == [] {
      assert a + t + b == t + b;
      assert (t + b)[..|t|] == t;
    } else {
      assert (a + t + b)[1..] == a[1..] + t + b;
      ContainsInfix(a[1..], t, b);
    }
  }

  /** Conversely, a string that contains `t` has it at some position `i`. */
  lemma {:induction false} ContainsIsInfix(s: string, t: string) returns (i: nat)
    requires Contains(s, t)
    ensures i + |t| <= |s| && s[i..i + |t|] == t
    decreases |s|
  {
    if HasPrefix(s, t) {
      i := 0;
    } else {
      var j := ContainsIsInfix(s[1..], t);
      i := j + 1;
      assert s[i..i + |t|] == s[1..][j..j + |t|];
    }
  }

  /** The empty string occurs in every string. */
  lemma ContainsEmpty(s: string)
    ensures Contains(s, "")
  {
  }

  function LowerChar(c: char): char {
    if 'A' <= c <= 'Z' then (c as int + 32) as char else c
  }

  /** `s.lower()`, restricted to the ASCII letters. */
  function Lower(s: string): (r: string)
    ensures |r| == |s|
    ensures forall i :: 0 <= i < |s| ==> r[i] == LowerChar(s[i])
  {
    seq(|s|, i requires 0 <= i < |s| => LowerChar(s[i]))
  }
}
