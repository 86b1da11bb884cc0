/** The classification of a wiki page name by the pattern
    `^([0-9].*_[0-9].*[_ -].*)+$` (`sub_re`, build_docs.py line 56), applied
    with Python's `re.match`. The pattern is given its meaning directly, as
    ghost predicates over the name; `Classify` decides it by scanning, and is
    proved to agree with it. */
module SubRe {

  predicate IsDigit(c: char)
  {
    '0' <= c <= '9'
  }

  /** The character class `[_ -]`. */
  predicate IsSeparator(c: char)
  {
    c == '_' || c == ' ' || c == '-'
  }

  /** Positions i and k in t where `_[0-9]` starts at i and a separator stands
      at k, with at least one character after i's digit before k. */
  ghost predicate SubIndexAt(t: string, i: int, k: int)
  {
    1 <= i && i + 2 <= k < |t| && t[i] == '_' && IsDigit(t[i + 1]) && IsSeparator(t[k])
  }

  /** One copy of the group `[0-9].*_[0-9].*[_ -].*` matches all of t.
      Without the DOTALL flag `.` matches every character except '\n', and
      none of the other pieces matches '\n' either. */
  ghost predicate GroupMatches(t: string)
  {
    && '\n' !in t
    && |t| > 0 && IsDigit(t[0])
    && exists i, k :: SubIndexAt(t, i, k)
  }

  /** The repetition `(...)+`: t is one or more copies of the group, one
      after the other. */
  ghost predicate RepeatMatches(t: string)
    decreases |t|
  {
    exists j :: 0 < j <= |t| && GroupMatches(t[..j]) && (j == |t| || RepeatMatches(t[j..]))
  }

  /** `sub_re.match(s)` succeeds. `re.match` anchors at the start, like `^`;
      without the MULTILINE flag `$` matches at the end of s and also just
      before a '\n' that ends s. */
  ghost predicate SubReMatches(s: string)
  {
    || RepeatMatches(s)
    || (|s| > 0 && s[|s| - 1] == '\n' && RepeatMatches(s[..|s| - 1]))
  }

  /** Text free of '\n' after a match of the group is absorbed by its final `.*`. */
  lemma GroupExtends(a: string, b: string)
    requires GroupMatches(a) && '\n' !in b
    ensures GroupMatches(a + b)
  {
    var i, k :| SubIndexAt(a, i, k);
    assert SubIndexAt(a + b, i, k);
  }

  /** `(...)+` accepts exactly the strings one copy of the group accepts. */
  lemma {:induction false} RepeatIsOneCopy(t: string)
    ensures RepeatMatches(t) <==> GroupMatches(t)
    decreases |t|
  {
    if GroupMatches(t) {
      assert t[..|t|] == t;
    }
    if RepeatMatches(t) {
      var j :| 0 < j <= |t| && GroupMatches(t[..j]) && (j == |t| || RepeatMatches(t[j..]));
      if j == |t| {
        assert t[..j] == t;
      } else {
        RepeatIsOneCopy(t[j..]);
        GroupExtends(t[..j], t[j..]);
        assert t[..j] + t[j..] == t;
      }
    }
  }

  /** Some position at or after `from` holds a separator. */
  function HasSeparatorFrom(t: string, from: nat): (b: bool)
    ensures b <==> exists k :: from <= k < |t| && IsSeparator(t[k])
    decreases |t| - from
  {
    if from >= |t| then false
    else IsSeparator(t[from]) || HasSeparatorFrom(t, from + 1)
  }

  /** Once `_[0-9]` stands at `from`, a sub-index from there on exists
      exactly when a separator follows the digit. */
  lemma FirstSubIndex(t: string, from: nat)
    requires 1 <= from && from + 2 < |t| && t[from] == '_' && IsDigit(t[from + 1])
    ensures HasSeparatorFrom(t, from + 2) <==> exists i, k :: from <= i && SubIndexAt(t, i, k)
  {
    if HasSeparatorFrom(t, from + 2) {
      var k :| from + 2 <= k < |t| && IsSeparator(t[k]);
      assert SubIndexAt(t, from, k);
    }
    if exists i, k :: from <= i && SubIndexAt(t, i, k) {
      var i, k :| from <= i && SubIndexAt(t, i, k);
      assert from + 2 <= k < |t| && IsSeparator(t[k]);
    }
  }

  /** Scans t from `from` for the first `_` followed by a digit; the name is
      a sub-item exactly when a separator follows that digit later on, since
      a later `_[0-9]` can only leave fewer positions for the separator. */
  function HasSubIndexFrom(t: string, from: nat): (b: bool)
    requires 1 <= from
    ensures b <==> exists i, k :: from <= i && SubIndexAt(t, i, k)
    decreases |t| - from
  {
    if from + 2 >= |t| then false
    else if t[from] == '_' && IsDigit(t[from + 1]) then
      FirstSubIndex(t, from);
      HasSeparatorFrom(t, from + 2)
    else
      var b := HasSubIndexFrom(t, from + 1);
      assert (exists i, k :: from <= i && SubIndexAt(t, i, k)) ==> exists i, k :: from + 1 <= i && SubIndexAt(t, i, k);
      b
  }

  /** For a name free of '\n' (every name ending in ".md" that a directory
      holds in practice) the pattern reads: a digit first, then somewhere
      from the second character on `_` and a digit, then later one of
      `_`, ' ', `-`. */
  lemma SubReOfNewlineFree(s: string)
    requires '\n' !in s
    ensures SubReMatches(s) <==> |s| > 0 && IsDigit(s[0]) && exists i, k :: SubIndexAt(s, i, k)
  {
    RepeatIsOneCopy(s);
  }

  /** A page is a chapter or a sub-item of the chapter before it. */
  datatype Kind = Chapter | SubItem

  /** `sub_re.match(file)`, as the classification of a page name. */
  function Classify(file: string): (kind: Kind)
    ensures kind == SubItem <==> SubReMatches(file)
  {
    var endsInNewline := |file| > 0 && file[|file| - 1] == '\n';
    var t := if endsInNewline then file[..|file| - 1] else file;
    RepeatIsOneCopy(file);
    RepeatIsOneCopy(t);
    if '\n' !in t && |t| > 0 && IsDigit(t[0]) && HasSubIndexFrom(t, 1) then SubItem else Chapter
  }
}
