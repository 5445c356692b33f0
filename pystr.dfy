/**
 * The Python `str` operations the script relies on: `startswith`,
 * `endswith`, the `in` substring test, slicing with Python's clamping,
 * `split()` with no argument, and `join`.
 */
module PyStr {

  /** `s.startswith(p)`, compared character by character. */
  predicate StartsWith(s: string, p: string)
    decreases |p|
  {
    |p| == 0 || (|s| > 0 && s[0] == p[0] && StartsWith(s[1..], p[1..]))
  }

  /** The character-by-character test is Python's: `s` begins with the whole of `p`. */
  lemma {:induction false} StartsWithIff(s: string, p: string)
    ensures StartsWith(s, p) <==> |p| <= |s| && s[..|p|] == p
    decreases |p|
  {
    if |p| > 0 && |s| > 0 {
      StartsWithIff(s[1..], p[1..]);
      if |p| <= |s| && s[..|p|] == p {
        assert s[1..][..|p| - 1] == p[1..];
      }
      if StartsWith(s, p) {
        assert s[..|p|] == [s[0]] + s[1..][..|p| - 1];
      }
    }
  }

  /** `s.endswith(p)` */
  predicate EndsWith(s: string, p: string) {
    |p| <= |s| && s[|s| - |p|..] == p
  }

  /** `sub in s`, searched from the left. */
  predicate Contains(s: string, sub: string)
    decreases |s|
  {
    StartsWith(s, sub) || (|s| > 0 && Contains(s[1..], sub))
  }

  /** `sub` occurs in `s` at index `i`. */
  predicate OccursAt(s: string, sub: string, i: int) {
    0 <= i <= |s| - |sub| && s[i..i + |sub|] == sub
  }

  /** The search agrees with "some window of `s` equals `sub`". */
  lemma {:induction false} ContainsIff(s: string, sub: string)
    ensures Contains(s, sub) <==> exists i :: OccursAt(s, sub, i)
    decreases |s|
  {
    StartsWithIff(s, sub);
    if StartsWith(s, sub) {
      assert OccursAt(s, sub, 0);
    } else if |s| > 0 {
      ContainsIff(s[1..], sub);
      OccursInTail(s, sub);
      assert !OccursAt(s, sub, 0);
    }
  }

  /** A window of `s` other than the first is a window of `s[1..]`, and back. */
  lemma OccursInTail(s: string, sub: string)
    requires |s| > 0
    ensures (exists i :: 1 <= i && OccursAt(s, sub, i)) <==> exists j :: OccursAt(s[1..], sub, j)
  {
    if exists i :: 1 <= i && OccursAt(s, sub, i) {
      var i :| 1 <= i && OccursAt(s, sub, i);
      assert s[1..][i - 1..i - 1 + |sub|] == s[i..i + |sub|];
      assert OccursAt(s[1..], sub, i - 1);
    }
    if exists j :: OccursAt(s[1..], sub, j) {
      var j :| OccursAt(s[1..], sub, j);
      assert s[1..][j..j + |sub|] == s[j + 1..j + 1 + |sub|];
      assert OccursAt(s, sub, j + 1);
    }
  }

  /** `s[n:]`: Python clamps an index past the end to the end. */
  function From(s: string, n: nat): (r: string)
    ensures |r| == if n <= |s| then |s| - n else 0
    ensures s == UpTo(s, n) + r
  {
    if n <= |s| then s[n..] else []
  }

  /** `s[:n]`, clamped in the same way. */
  function UpTo(s: string, n: nat): (r: string)
    ensures |r| == if n <= |s| then n else |s|
    ensures StartsWith(s, r)
  {
    var r := if n <= |s| then s[..n] else s;
    StartsWithIff(s, r);
    r
  }

  /** The characters `str.isspace` accepts, the separators of `split()`. */
  predicate IsSpace(c: char) {
    c == ' ' || '\t' <= c <= '\r' || '\U{1C}' <= c <= '\U{1F}' || c == '\U{85}' || c == '\U{A0}'
    || c == '\U{1680}' || '\U{2000}' <= c <= '\U{200A}' || c == '\U{2028}' || c == '\U{2029}'
    || c == '\U{202F}' || c == '\U{205F}' || c == '\U{3000}'
  }

  /** A non-empty run of non-space characters: what `split()` yields. */
  predicate IsWord(w: string) {
    |w| > 0 && forall i :: 0 <= i < |w| ==> !IsSpace(w[i])
  }

  /** The number of whitespace characters at the start of `s`. */
  function LeadingSpaces(s: string): (n: nat)
    ensures n <= |s|
    ensures forall i :: 0 <= i < n ==> IsSpace(s[i])
    ensures n < |s| ==> !IsSpace(s[n])
  {
    if s != [] && IsSpace(s[0]) then 1 + LeadingSpaces(s[1..]) else 0
  }

  /** The number of non-space characters at the start of `s`. */
  function WordLength(s: string): (n: nat)
    ensures n <= |s|
    ensures forall i :: 0 <= i < n ==> !IsSpace(s[i])
    ensures n < |s| ==> IsSpace(s[n])
  {
    if s != [] && !IsSpace(s[0]) then 1 + WordLength(s[1..]) else 0
  }

  /** `s.split()`: the maximal runs of non-space characters, in order. */
  function Split(s: string): (words: seq<string>)
    ensures forall i :: 0 <= i < |words| ==> IsWord(words[i])
    decreases |s|
  {
    var t := s[LeadingSpaces(s)..];
    if t == [] then []
    else
      var n := WordLength(t);
      assert n > 0 by {
        assert !IsSpace(t[0]);
      }
      assert IsWord(t[..n]) by {
        assert forall i :: 0 <= i < n ==> t[..n][i] == t[i];
      }
      [t[..n]] + Split(t[n..])
  }

  /** `sep.join(words)` */
  function Join(words: seq<string>, sep: string): string {
    if |words| == 0 then []
    else if |words| == 1 then words[0]
    else words[0] + sep + Join(words[1..], sep)
  }

  lemma WordLengthOfWord(w: string, rest: string)
    requires IsWord(w)
    requires rest == [] || IsSpace(rest[0])
    ensures WordLength(w + rest) == |w|
    decreases |w|
  {
    var s := w + rest;
    assert s[1..] == w[1..] + rest;
    if |w| > 1 {
      WordLengthOfWord(w[1..], rest);
    }
  }

  /** A word followed by a space or by nothing is split off whole. */
  lemma SplitCons(w: string, rest: string)
    requires IsWord(w)
    requires rest == [] || IsSpace(rest[0])
    ensures Split(w + rest) == [w] + Split(rest)
  {
    var s := w + rest;
    assert LeadingSpaces(s) == 0;
    assert s[0..] == s;
    WordLengthOfWord(w, rest);
    assert s[..|w|] == w && s[|w|..] == rest;
  }

  /** A leading space is skipped by `split()`. */
  lemma SplitSkipsSpace(s: string)
    ensures Split(" " + s) == Split(s)
  {
    var t := " " + s;
    assert t[1..] == s;
    assert LeadingSpaces(t) == 1 + LeadingSpaces(s);
    assert t[LeadingSpaces(t)..] == s[LeadingSpaces(s)..];
  }

  /** Round trip: splitting a space-joined list of words gives the words back. */
  lemma {:induction false} SplitJoin(words: seq<string>)
    requires forall i :: 0 <= i < |words| ==> IsWord(words[i])
    ensures Split(Join(words, " ")) == words
    decreases |words|
  {
    if |words| == 1 {
      SplitCons(words[0], []);
      assert words[0] + [] == words[0];
    } else if |words| > 1 {
      var rest := " " + Join(words[1..], " ");
      assert Join(words, " ") == words[0] + rest;
      SplitCons(words[0], rest);
      SplitSkipsSpace(Join(words[1..], " "));
      SplitJoin(words[1..]);
      assert words == [words[0]] + words[1..];
    }
  }
}
