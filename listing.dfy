/** The order in which build_docs.py visits the directory listing: Python's
    `list.sort()` on unicode file names, which compares strings
    lexicographically by code point. Also the order-preserving filter that
    keeps some of the names. */
module Listing {

  /** Python's `a <= b` on two unicode strings: the first differing code
      point decides, and a proper prefix comes first. */
  predicate CodePointLe(a: string, b: string)
    decreases |a|
  {
    a == [] || (b != [] && (a[0] < b[0] || (a[0] == b[0] && CodePointLe(a[1..], b[1..]))))
  }

  lemma {:induction false} CodePointLeReflexive(a: string)
    ensures CodePointLe(a, a)
  {
    if a != [] {
      CodePointLeReflexive(a[1..]);
    }
  }

  lemma {:induction false} CodePointLeTotal(a: string, b: string)
    ensures CodePointLe(a, b) || CodePointLe(b, a)
  {
    if a != [] && b != [] && a[0] == b[0] {
      CodePointLeTotal(a[1..], b[1..]);
    }
  }

  lemma {:induction false} CodePointLeTransitive(a: string, b: string, c: string)
    requires CodePointLe(a, b) && CodePointLe(b, c)
    ensures CodePointLe(a, c)
  {
    if a != [] && b != [] && c != [] && a[0] == b[0] == c[0] {
      CodePointLeTransitive(a[1..], b[1..], c[1..]);
    }
  }

  lemma {:induction false} CodePointLeAntisymmetric(a: string, b: string)
    requires CodePointLe(a, b) && CodePointLe(b, a)
    ensures a == b
  {
    if a != [] && b != [] {
      CodePointLeAntisymmetric(a[1..], b[1..]);
      assert a == [a[0]] + a[1..] && b == [b[0]] + b[1..];
    }
  }

  /** Two names that agree up to position k and differ there are ordered by
      their code points at k. */
  lemma {:induction false} CodePointLeAt(a: string, b: string, k: nat)
    requires k < |a| && k < |b| && a[..k] == b[..k] && a[k] < b[k]
    ensures CodePointLe(a, b)
  {
    if k > 0 {
      assert a[0] == a[..k][0] == b[..k][0] == b[0];
      assert a[1..][..k - 1] == a[..k][1..] == b[..k][1..] == b[1..][..k - 1];
      CodePointLeAt(a[1..], b[1..], k - 1);
    }
  }

  /** Every name comes no later than every name after it. */
  ghost predicate Sorted(s: seq<string>)
  {
    forall i, j :: 0 <= i < j < |s| ==> CodePointLe(s[i], s[j])
  }

  /** Each name no later than the next one is enough for a sorted sequence. */
  lemma {:induction false} SortedByNeighbours(s: seq<string>)
    requires forall i :: 0 <= i < |s| - 1 ==> CodePointLe(s[i], s[i + 1])
    ensures Sorted(s)
  {
    if s != [] {
      SortedByNeighbours(s[1..]);
      forall k | 0 <= k < |s[1..]| ensures CodePointLe(s[0], s[1..][k]) {
        if k > 0 {
          assert CodePointLe(s[1..][0], s[1..][k]);
          CodePointLeTransitive(s[0], s[1], s[1..][k]);
        }
      }
      ConsSorted(s[0], s[1..]);
      assert [s[0]] + s[1..] == s;
    }
  }

  /** A name no later than every name of a sorted sequence can go in front. */
  lemma ConsSorted(x: string, s: seq<string>)
    requires Sorted(s)
    requires forall k :: 0 <= k < |s| ==> CodePointLe(x, s[k])
    ensures Sorted([x] + s)
  {
    var t := [x] + s;
    forall i, j | 0 <= i < j < |t| ensures CodePointLe(t[i], t[j]) {
      assert t[j] == s[j - 1];
      if i > 0 {
        assert t[i] == s[i - 1];
      }
    }
  }

  /** Inserts one name into a sorted sequence, before the first name it does
      not come after. */
  function Insert(x: string, s: seq<string>): (r: seq<string>)
    requires Sorted(s)
    ensures Sorted(r)
    ensures multiset(r) == multiset(s) + multiset{x}
  {
    if s == [] then [x]
    else if CodePointLe(x, s[0]) then
      InsertInFront(x, s);
      [x] + s
    else
      var r' := Insert(x, s[1..]);
      InsertAfterHead(x, s, r');
      assert s == [s[0]] + s[1..];
      [s[0]] + r'
  }

  lemma InsertInFront(x: string, s: seq<string>)
    requires Sorted(s) && s != [] && CodePointLe(x, s[0])
    ensures Sorted([x] + s)
  {
    forall k | 0 <= k < |s| ensures CodePointLe(x, s[k]) {
      if k > 0 {
        CodePointLeTransitive(x, s[0], s[k]);
      }
    }
    ConsSorted(x, s);
  }

  lemma InsertAfterHead(x: string, s: seq<string>, r': seq<string>)
    requires Sorted(s) && s != [] && !CodePointLe(x, s[0])
    requires Sorted(r') && multiset(r') == multiset(s[1..]) + multiset{x}
    ensures Sorted([s[0]] + r')
  {
    CodePointLeTotal(x, s[0]);
    forall k | 0 <= k < |r'| ensures CodePointLe(s[0], r'[k]) {
      assert r'[k] in multiset(r');
      if r'[k] != x {
        assert r'[k] in s[1..];
        var j :| 0 <= j < |s[1..]| && s[1..][j] == r'[k];
        assert s[j + 1] == r'[k];
      }
    }
    ConsSorted(s[0], r');
  }

  /** `list.sort()`: the names in ascending code-point order. */
  function SortListing(s: seq<string>): (r: seq<string>)
    ensures Sorted(r)
    ensures multiset(r) == multiset(s)
  {
    if s == [] then []
    else
      assert s == [s[0]] + s[1..];
      Insert(s[0], SortListing(s[1..]))
  }

  lemma MultisetTail(a: seq<string>)
    requires a != []
    ensures multiset(a[1..]) == multiset(a) - multiset{a[0]}
  {
    assert a == [a[0]] + a[1..];
  }

  /** The least name of a sorted sequence comes no later than any of its names. */
  lemma HeadIsLeast(a: seq<string>, x: string)
    requires Sorted(a) && x in multiset(a)
    ensures CodePointLe(a[0], x)
  {
    var j :| 0 <= j < |a| && a[j] == x;
    if j == 0 {
      CodePointLeReflexive(x);
    }
  }

  /** A sorted sequence is determined by its elements: whatever order the
      names arrive in, sorting gives one and the same sequence. */
  lemma {:induction false} SortedUnique(a: seq<string>, b: seq<string>)
    requires Sorted(a) && Sorted(b)
    requires multiset(a) == multiset(b)
    ensures a == b
  {
    if a == [] {
      assert |multiset(b)| == 0;
    } else {
      assert |multiset(b)| == |a|;
      assert a[0] in multiset(a) && b[0] in multiset(b);
      HeadIsLeast(b, a[0]);
      HeadIsLeast(a, b[0]);
      CodePointLeAntisymmetric(a[0], b[0]);
      MultisetTail(a);
      MultisetTail(b);
      SortedUnique(a[1..], b[1..]);
      assert a == [a[0]] + a[1..] && b == [b[0]] + b[1..];
    }
  }

  /** The names for which `keep` holds, in their original order. */
  function Filter(s: seq<string>, keep: string -> bool): seq<string>
  {
    if s == [] then [] else (if keep(s[0]) then [s[0]] else []) + Filter(s[1..], keep)
  }

  /** Filtering keeps every copy of a kept name and drops every other one. */
  lemma {:induction false} FilterMultiplicity(s: seq<string>, keep: string -> bool, y: string)
    ensures multiset(Filter(s, keep))[y] == if keep(y) then multiset(s)[y] else 0
  {
    if s != [] {
      FilterMultiplicity(s[1..], keep, y);
      assert s == [s[0]] + s[1..];
    }
  }

  /** Permuting the input permutes the filtered output. */
  lemma FilterPermutation(a: seq<string>, b: seq<string>, keep: string -> bool)
    requires multiset(a) == multiset(b)
    ensures multiset(Filter(a, keep)) == multiset(Filter(b, keep))
    ensures |Filter(a, keep)| == |Filter(b, keep)|
  {
    forall y ensures multiset(Filter(a, keep))[y] == multiset(Filter(b, keep))[y] {
      FilterMultiplicity(a, keep, y);
      FilterMultiplicity(b, keep, y);
    }
    assert multiset(Filter(a, keep)) == multiset(Filter(b, keep));
    assert |multiset(Filter(a, keep))| == |multiset(Filter(b, keep))|;
  }

  lemma {:induction false} FilterSorted(s: seq<string>, keep: string -> bool)
    requires Sorted(s)
    ensures Sorted(Filter(s, keep))
  {
    if s != [] {
      var rest := Filter(s[1..], keep);
      FilterSorted(s[1..], keep);
      if keep(s[0]) {
        forall k | 0 <= k < |rest| ensures CodePointLe(s[0], rest[k]) {
          FilterMultiplicity(s[1..], keep, rest[k]);
          assert rest[k] in multiset(rest);
          var j :| 0 <= j < |s[1..]| && s[1..][j] == rest[k];
          assert s[j + 1] == rest[k];
        }
        ConsSorted(s[0], rest);
      }
    }
  }

  /** Sorting then filtering is filtering then sorting. */
  lemma SortFilterCommute(s: seq<string>, keep: string -> bool)
    ensures SortListing(Filter(s, keep)) == Filter(SortListing(s), keep)
  {
    FilterSorted(SortListing(s), keep);
    FilterPermutation(SortListing(s), s, keep);
    SortedUnique(SortListing(Filter(s, keep)), Filter(SortListing(s), keep));
  }
}
