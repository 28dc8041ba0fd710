/** The few java.lang.String operations the crawler relies on, written out over seq<char>. */
module Strings {

  /** s.startsWith(prefix) */
  predicate StartsWith(s: string, prefix: string): (b: bool)
    ensures b <==> |prefix| <= |s| && forall i :: 0 <= i < |prefix| ==> s[i] == prefix[i]
  {
    prefix <= s
  }

  /** s.endsWith(suffix) */
  predicate EndsWith(s: string, suffix: string): (b: bool)
    ensures b <==> |suffix| <= |s| && forall i :: 0 <= i < |suffix| ==> s[|s| - |suffix| + i] == suffix[i]
  {
    |suffix| <= |s| && s[|s| - |suffix|..] == suffix
  }

  /** True when every character of s is c (vacuously true of the empty string). */
  predicate AllChar(s: string, c: char) {
    forall i :: 0 <= i < |s| ==> s[i] == c
  }

  /** The text of s before the first occurrence of c (all of s when c does not occur). */
  function Before(s: string, c: char): (r: string)
    ensures r <= s
    ensures c !in r
    ensures r == s || s[|r|] == c
  {
    if s == [] || s[0] == c then [] else [s[0]] + Before(s[1..], c)
  }

  /**
   * s.split(c)[0] for a delimiter that is one literal character.  Java's split drops
   * trailing empty strings, so a non-empty string made only of delimiters splits into
   * an empty array and indexing [0] throws: that case is None.
   */
  function SplitFirst(s: string, c: char): (r: Option<string>)
    ensures r.None? <==> s != [] && AllChar(s, c)
    ensures r.Some? ==> r.value == Before(s, c)
  {
    if s != [] && AllChar(s, c) then None else Some(Before(s, c))
  }

  datatype Option<+T> = None | Some(value: T)

  /**
   * s.replace(target, replacement): every occurrence of target, found left to right
   * without overlap, is replaced.
   */
  function Replace(s: string, target: string, replacement: string): (r: string)
    requires target != []
    ensures replacement == target ==> r == s
    ensures |replacement| == |target| ==> |r| == |s|
    decreases |s|
  {
    if |s| < |target| then s
    else if s[..|target|] == target then replacement + Replace(s[|target|..], target, replacement)
    else [s[0]] + Replace(s[1..], target, replacement)
  }

  /** No occurrence of target starts at any of the first n positions of s. */
  predicate NoMatchBefore(s: string, target: string, n: nat) {
    forall i :: 0 <= i < n && i < |s| ==> !StartsWith(s[i..], target)
  }

  /** Replacing one character by another rewrites s position by position. */
  lemma {:induction false} ReplaceCharPointwise(s: string, a: char, b: char)
    ensures |Replace(s, [a], [b])| == |s|
    ensures forall i :: 0 <= i < |s| ==> Replace(s, [a], [b])[i] == if s[i] == a then b else s[i]
  {
    if s != [] {
      ReplaceCharPointwise(s[1..], a, b);
      if s[..1] == [a] {
        assert Replace(s, [a], [b]) == [b] + Replace(s[1..], [a], [b]);
      } else {
        assert Replace(s, [a], [b]) == [s[0]] + Replace(s[1..], [a], [b]);
      }
    }
  }

  /** Where no occurrence starts inside the prefix p, replace leaves p alone. */
  lemma {:induction false} ReplaceSkipsPrefix(p: string, rest: string, target: string, replacement: string)
    requires target != []
    requires NoMatchBefore(p + rest, target, |p|)
    ensures Replace(p + rest, target, replacement) == p + Replace(rest, target, replacement)
    decreases |p|
  {
    if p != [] {
      var s := p + rest;
      var t := p[1..] + rest;
      assert s[1..] == t;
      forall i | 0 <= i < |p| - 1 && i < |t|
        ensures !StartsWith(t[i..], target)
      {
        assert t[i..] == s[i + 1..];
      }
      ReplaceSkipsPrefix(p[1..], rest, target, replacement);
      if |s| >= |target| {
        assert s[0..] == s;
        assert s[..|target|] != target;
        calc {
          Replace(s, target, replacement);
          [s[0]] + Replace(t, target, replacement);
          [p[0]] + (p[1..] + Replace(rest, target, replacement));
          { assert [p[0]] + p[1..] == p; }
          p + Replace(rest, target, replacement);
        }
      } else {
        assert Replace(rest, target, replacement) == rest;
      }
    } else {
      assert p + rest == rest;
      assert p + Replace(rest, target, replacement) == Replace(rest, target, replacement);
    }
  }

  /** A string in which target never occurs is returned unchanged. */
  lemma ReplaceAbsent(s: string, target: string, replacement: string)
    requires target != []
    requires NoMatchBefore(s, target, |s|)
    ensures Replace(s, target, replacement) == s
  {
    assert s + [] == s;
    ReplaceSkipsPrefix(s, [], target, replacement);
  }

  /** A replacement no longer than its target never lengthens the string. */
  lemma {:induction false} ReplaceNoLonger(s: string, target: string, replacement: string)
    requires target != [] && |replacement| <= |target|
    ensures |Replace(s, target, replacement)| <= |s|
    decreases |s|
  {
    if |s| >= |target| {
      if s[..|target|] == target {
        ReplaceNoLonger(s[|target|..], target, replacement);
      } else {
        ReplaceNoLonger(s[1..], target, replacement);
      }
    }
  }
}
