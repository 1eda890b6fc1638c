/** Text helpers shared by the model: an Option type, prefix and suffix
    tests, and Python's `str.replace`. */
module Strings {

  datatype Option<+T> = None | Some(value: T)

  predicate StartsWith(s: string, p: string) {
    |p| <= |s| && s[..|p|] == p
  }

  predicate EndsWith(s: string, p: string) {
    |p| <= |s| && s[|s| - |p|..] == p
  }

  /** `p` occurs in `s` at index `i`. */
  ghost predicate OccursAt(s: string, p: string, i: int) {
    0 <= i && i + |p| <= |s| && s[i..i + |p|] == p
  }

  ghost predicate Occurs(s: string, p: string) {
    exists i :: OccursAt(s, p, i)
  }

  /** Python `s[n:]` for a non-negative `n`: empty once `n` passes the end. */
  function Drop(s: string, n: nat): (r: string)
    ensures |r| == if n <= |s| then |s| - n else 0
  {
    if n <= |s| then s[n..] else ""
  }

  /** Python `s[:-n]` for a positive `n`: empty once `n` reaches the length. */
  function DropLast(s: string, n: nat): (r: string)
    requires n > 0
    ensures |r| == if n <= |s| then |s| - n else 0
  {
    if n <= |s| then s[..|s| - n] else ""
  }

  /** Python's `str.replace(pat, repl)`: every occurrence of `pat`, found left
      to right without overlap, is replaced by `repl`. */
  function Replace(s: string, pat: string, repl: string): string
    requires |pat| > 0
    decreases |s|
  {
    if |s| < |pat| then s
    else if s[..|pat|] == pat then repl + Replace(s[|pat|..], pat, repl)
    else [s[0]] + Replace(s[1..], pat, repl)
  }

  /** A string without the pattern is left as it is. */
  lemma {:induction false} ReplaceAbsent(s: string, pat: string, repl: string)
    requires |pat| > 0
    requires !Occurs(s, pat)
    ensures Replace(s, pat, repl) == s
    decreases |s|
  {
    if |s| >= |pat| {
      assert !OccursAt(s, pat, 0);
      assert s[..|pat|] != pat;
      forall i ensures !OccursAt(s[1..], pat, i) {
        if OccursAt(s[1..], pat, i) {
          assert s[1..][i..i + |pat|] == s[i + 1..i + 1 + |pat|];
          assert OccursAt(s, pat, i + 1);
        }
      }
      ReplaceAbsent(s[1..], pat, repl);
      assert s == [s[0]] + s[1..];
    }
  }

  /** Replacing a single character by text that does not contain it leaves
      no occurrence of that character. */
  lemma {:induction false} ReplaceCharGone(s: string, c: char, repl: string)
    requires c !in repl
    ensures c !in Replace(s, [c], repl)
    decreases |s|
  {
    if |s| >= 1 {
      ReplaceCharGone(s[1..], c, repl);
      if s[..1] != [c] {
        assert s[0] != c;
      }
    }
  }

  /** Replacing one character by one character keeps the length and maps
      every position on its own. */
  lemma {:induction false} ReplaceCharPointwise(s: string, c: char, d: char)
    ensures |Replace(s, [c], [d])| == |s|
    ensures forall k :: 0 <= k < |s| ==>
              Replace(s, [c], [d])[k] == (if s[k] == c then d else s[k])
    decreases |s|
  {
    if |s| >= 1 {
      ReplaceCharPointwise(s[1..], c, d);
      var r := Replace(s, [c], [d]);
      var t := Replace(s[1..], [c], [d]);
      assert s[..1] == [c] <==> s[0] == c;
      assert r == [if s[0] == c then d else s[0]] + t;
      forall k | 0 <= k < |s|
        ensures r[k] == (if s[k] == c then d else s[k])
      {
        if k > 0 {
          assert r[k] == t[k - 1];
          assert s[1..][k - 1] == s[k];
        }
      }
    }
  }

  /** Python's `\w` on the ASCII range: letters, digits and underscore. */
  predicate IsWordChar(c: char) {
    ('a' <= c <= 'z') || ('A' <= c <= 'Z') || ('0' <= c <= '9') || c == '_'
  }

  predicate IsLetter(c: char) {
    ('a' <= c <= 'z') || ('A' <= c <= 'Z')
  }

  function Upper(c: char): (r: char)
    ensures IsLetter(c) ==> IsLetter(r)
  {
    if 'a' <= c <= 'z' then (c as int - 32) as char else c
  }

  function Lower(c: char): (r: char)
    ensures IsLetter(c) ==> IsLetter(r)
  {
    if 'A' <= c <= 'Z' then (c as int + 32) as char else c
  }
}
