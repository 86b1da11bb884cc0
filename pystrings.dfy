/** The few Python string operations that build_docs.py relies on, each as a
    function over `string` (a sequence of Unicode scalar values), with the
    property that makes it what Python's builtin is. */
module PyStrings {

  /** `s.endswith(suffix)` */
  predicate EndsWith(s: string, suffix: string)
  {
    |suffix| <= |s| && s[|s| - |suffix|..] == suffix
  }

  /** The slice `s[:-n]` for a positive n: everything but the last n
      characters, and the empty string when s is shorter than n. */
  function DropLast(s: string, n: nat): (r: string)
    requires 0 < n
    ensures |r| == if n <= |s| then |s| - n else 0
    ensures forall i :: 0 <= i < |r| ==> r[i] == s[i]
  {
    if n <= |s| then s[..|s| - n] else ""
  }

  /** `s.replace(target, replacement)` where both are one character long:
      every occurrence of `target` is replaced, nothing else moves. */
  function ReplaceChar(s: string, target: char, replacement: char): string
  {
    if s == [] then ""
    else [if s[0] == target then replacement else s[0]] + ReplaceChar(s[1..], target, replacement)
  }

  lemma {:induction false} ReplaceCharAt(s: string, target: char, replacement: char)
    ensures |ReplaceChar(s, target, replacement)| == |s|
    ensures forall i :: 0 <= i < |s| ==>
      ReplaceChar(s, target, replacement)[i] == (if s[i] == target then replacement else s[i])
  {
    if s != [] {
      ReplaceCharAt(s[1..], target, replacement);
    }
  }

  /** `needle` occurs in `haystack` starting at position i. */
  ghost predicate OccursAt(needle: string, haystack: string, i: int)
  {
    0 <= i <= |haystack| - |needle| && haystack[i..i + |needle|] == needle
  }

  /** `needle` occurs somewhere in `haystack`. */
  ghost predicate IsSubstring(needle: string, haystack: string)
  {
    exists i :: OccursAt(needle, haystack, i)
  }

  /** An occurrence in `haystack[1..]` is an occurrence in `haystack` one
      position later, and every occurrence not at 0 is one of those. */
  lemma SubstringOfTail(needle: string, haystack: string)
    requires haystack != []
    requires |needle| <= |haystack| ==> haystack[..|needle|] != needle
    ensures IsSubstring(needle, haystack) <==> IsSubstring(needle, haystack[1..])
  {
    var tail := haystack[1..];
    if IsSubstring(needle, haystack) {
      var i :| OccursAt(needle, haystack, i);
      assert i != 0;
      assert tail[i - 1..i - 1 + |needle|] == needle;
      assert OccursAt(needle, tail, i - 1);
    }
    if IsSubstring(needle, tail) {
      var i :| OccursAt(needle, tail, i);
      assert haystack[i + 1..i + 1 + |needle|] == needle;
      assert OccursAt(needle, haystack, i + 1);
    }
  }

  /** `needle in haystack` for two strings: a left-to-right search. */
  function Contains(haystack: string, needle: string): (b: bool)
    ensures b <==> IsSubstring(needle, haystack)
    decreases |haystack|
  {
    if |haystack| < |needle| then false
    else if haystack[..|needle|] == needle then
      assert OccursAt(needle, haystack, 0);
      true
    else
      SubstringOfTail(needle, haystack);
      Contains(haystack[1..], needle)
  }

  /** `sep.join(parts)` */
  function Join(sep: string, parts: seq<string>): string
  {
    if |parts| == 0 then ""
    else if |parts| == 1 then parts[0]
    else parts[0] + sep + Join(sep, parts[1..])
  }

  /** `s.split(sep)` for a one-character separator: the pieces between
      consecutive separators, one more piece than there are separators. */
  function Split(s: string, sep: char): (pieces: seq<string>)
    ensures |pieces| >= 1
  {
    if s == [] then [""]
    else
      var rest := Split(s[1..], sep);
      if s[0] == sep then [""] + rest
      else [[s[0]] + rest[0]] + rest[1..]
  }

  /** `s.count(c)` for one character. */
  function Occurrences(s: string, c: char): nat
  {
    if s == [] then 0 else (if s[0] == c then 1 else 0) + Occurrences(s[1..], c)
  }

  lemma {:induction false} OccurrencesAppend(a: string, b: string, c: char)
    ensures Occurrences(a + b, c) == Occurrences(a, c) + Occurrences(b, c)
  {
    if a != [] {
      assert (a + b)[1..] == a[1..] + b;
      OccurrencesAppend(a[1..], b, c);
    } else {
      assert a + b == b;
    }
  }

  /** Splitting yields exactly one piece more than there are separators. */
  lemma {:induction false} SplitLength(s: string, sep: char)
    ensures |Split(s, sep)| == Occurrences(s, sep) + 1
  {
    if s != [] {
      SplitLength(s[1..], sep);
    }
  }

  /** A prefix free of the separator is glued onto the first piece. */
  lemma {:induction false} SplitPrefix(a: string, rest: string, sep: char)
    requires sep !in a
    ensures Split(a + rest, sep) == [a + Split(rest, sep)[0]] + Split(rest, sep)[1..]
  {
    if a == [] {
      assert a + rest == rest;
      assert a + Split(rest, sep)[0] == Split(rest, sep)[0];
      assert Split(rest, sep) == [Split(rest, sep)[0]] + Split(rest, sep)[1..];
    } else {
      assert (a + rest)[1..] == a[1..] + rest;
      SplitPrefix(a[1..], rest, sep);
      assert [a[0]] + (a[1..] + Split(rest, sep)[0]) == a + Split(rest, sep)[0];
    }
  }

  /** Round trip: joining pieces free of the separator with that separator
      and splitting the result on it gives back the pieces. */
  lemma {:induction false} SplitJoin(parts: seq<string>, sep: char)
    requires |parts| >= 1
    requires forall k :: 0 <= k < |parts| ==> sep !in parts[k]
    ensures Split(Join([sep], parts), sep) == parts
  {
    if |parts| == 1 {
      SplitPrefix(parts[0], "", sep);
      assert parts[0] + "" == parts[0];
    } else {
      var tail := Join([sep], parts[1..]);
      SplitJoin(parts[1..], sep);
      assert Join([sep], parts) == parts[0] + ([sep] + tail);
      SplitPrefix(parts[0], [sep] + tail, sep);
      assert ([sep] + tail)[1..] == tail;
      assert Split([sep] + tail, sep) == [""] + parts[1..];
      assert parts[0] + "" == parts[0];
    }
  }
}
