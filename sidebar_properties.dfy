/** What the sidebar generated by build_docs.py is made of: where each page's
    lines go, which names matter, when generation fails, and the shape of the
    text. */
module SidebarProperties {
  import opened PyStrings
  import opened Listing
  import opened SubRe
  import opened BuildDocs

  /** The lines for a listing are the lines for its first part followed by
      the lines for the rest: nothing is reordered, by title or by kind. */
  lemma {:induction false} SidebarLinesAppend(a: seq<string>, b: seq<string>)
    ensures SidebarLines(a + b) == SidebarLines(a) + SidebarLines(b)
    decreases |b|
  {
    if b == [] {
      assert a + b == a;
    } else {
      var front := b[..|b| - 1];
      assert (a + b)[..|a + b| - 1] == a + front;
      assert (a + b)[|a + b| - 1] == b[|b| - 1];
      SidebarLinesAppend(a, front);
    }
  }

  lemma SidebarLinesSingle(file: string)
    ensures SidebarLines([file]) == if IsMarkdown(file) then PageLines(file) else []
  {
    assert [file][..0] == [];
  }

  /** Each name contributes its own lines at its own place in the listing:
      none for a name not ending in ".md", the link line alone for a page
      `sub_re` matches, and a heading line directly followed by the link line
      for any other page. */
  lemma PageInPlace(before: seq<string>, file: string, after: seq<string>)
    ensures !IsMarkdown(file) ==>
      SidebarLines(before + [file] + after) == SidebarLines(before) + SidebarLines(after)
    ensures IsMarkdown(file) && Classify(file) == SubItem ==>
      SidebarLines(before + [file] + after) == SidebarLines(before) + [LinkLine(file)] + SidebarLines(after)
    ensures IsMarkdown(file) && Classify(file) == Chapter ==>
      SidebarLines(before + [file] + after)
        == SidebarLines(before) + [HeadingLine(file), LinkLine(file)] + SidebarLines(after)
  {
    SidebarLinesAppend(before + [file], after);
    SidebarLinesAppend(before, [file]);
    SidebarLinesSingle(file);
  }

  /** Only the names ending in ".md" matter: dropping every other name from
      the listing leaves the lines unchanged. */
  lemma {:induction false} SidebarLinesOnlyMarkdown(files: seq<string>)
    ensures SidebarLines(files) == SidebarLines(Filter(files, IsMarkdown))
  {
    if files != [] {
      var head := if IsMarkdown(files[0]) then [files[0]] else [];
      SidebarLinesOnlyMarkdown(files[1..]);
      assert files == [files[0]] + files[1..];
      SidebarLinesAppend([files[0]], files[1..]);
      SidebarLinesAppend(head, Filter(files[1..], IsMarkdown));
      SidebarLinesSingle(files[0]);
    }
  }

  /** No line at all exactly when no name ends in ".md". */
  lemma {:induction false} SidebarLinesEmptyIff(files: seq<string>)
    ensures SidebarLines(files) == [] <==> forall f :: f in files ==> !IsMarkdown(f)
  {
    if files != [] {
      var front := files[..|files| - 1];
      var last := files[|files| - 1];
      SidebarLinesEmptyIff(front);
      assert files == front + [last];
    }
  }

  /** One line per markdown page, plus one heading line per chapter page. */
  lemma {:induction false} SidebarLinesCount(files: seq<string>)
    ensures |SidebarLines(files)| == |Filter(files, IsMarkdown)| + |Filter(files, IsChapterPage)|
  {
    if files != [] {
      SidebarLinesCount(files[1..]);
      assert files == [files[0]] + files[1..];
      SidebarLinesAppend([files[0]], files[1..]);
      SidebarLinesSingle(files[0]);
    }
  }

  /** The title of a name free of '\n' is free of '\n'. */
  lemma TitleNoNewline(file: string)
    requires '\n' !in file
    ensures '\n' !in Title(file)
  {
    var title := Title(file);
    forall i | 0 <= i < |title| ensures title[i] != '\n' {
      assert file[i] in file;
    }
  }

  /** Names free of '\n' give lines free of '\n'. */
  lemma {:induction false} SidebarLinesNoNewline(files: seq<string>)
    requires forall f :: f in files ==> '\n' !in f
    ensures forall line :: line in SidebarLines(files) ==> '\n' !in line
  {
    if files != [] {
      var front := files[..|files| - 1];
      var last := files[|files| - 1];
      assert forall f :: f in front ==> f in files;
      SidebarLinesNoNewline(front);
      assert last in files;
      TitleNoNewline(last);
      assert '\n' !in HeadingLine(last);
      assert '\n' !in LinkLine(last);
    }
  }

  /** `generate_sidebar` returns `False` exactly when no name in the listing
      ends in ".md". */
  lemma SidebarFailsIffNoMarkdown(listing: seq<string>)
    ensures Sidebar(listing) == NoMarkdownFiles <==> forall f :: f in listing ==> !IsMarkdown(f)
  {
    var sorted := SortListing(listing);
    SidebarLinesEmptyIff(sorted);
    assert forall f :: f in sorted <==> f in multiset(listing);
  }

  /** The order in which the directory lists its entries does not matter:
      any two listings of the same names give the same sidebar. */
  lemma SidebarIgnoresListingOrder(a: seq<string>, b: seq<string>)
    requires multiset(a) == multiset(b)
    ensures Sidebar(a) == Sidebar(b)
  {
    SortedUnique(SortListing(a), SortListing(b));
  }

  /** Adding or removing names that do not end in ".md" changes nothing. */
  lemma SidebarIgnoresNonMarkdown(listing: seq<string>)
    ensures Sidebar(listing) == Sidebar(Filter(listing, IsMarkdown))
  {
    SortFilterCommute(listing, IsMarkdown);
    SidebarLinesOnlyMarkdown(SortListing(listing));
  }

  /** When no name holds a '\n', the sidebar text ends in "\n", cutting it at
      each '\n' gives back the lines in order, and it holds one '\n' per
      markdown page plus one per chapter page. */
  lemma SidebarTextShape(listing: seq<string>)
    requires forall f :: f in listing ==> '\n' !in f
    ensures Sidebar(listing).Generated? ==>
      var text := Sidebar(listing).text;
      && |text| > 0 && text[|text| - 1] == '\n'
      && Split(text[..|text| - 1], '\n') == SidebarLines(SortListing(listing))
      && Occurrences(text, '\n') == |Filter(listing, IsMarkdown)| + |Filter(listing, IsChapterPage)|
  {
    var sorted := SortListing(listing);
    var lines := SidebarLines(sorted);
    if lines != [] {
      var body := Join("\n", lines);
      var text := body + "\n";
      assert Sidebar(listing).text == text;
      assert text[..|text| - 1] == body;
      assert forall f :: f in sorted ==> f in multiset(listing);
      SidebarLinesNoNewline(sorted);
      assert "\n" == ['\n'];
      SplitJoin(lines, '\n');
      SplitLength(body, '\n');
      OccurrencesAppend(body, "\n", '\n');
      SidebarLinesCount(sorted);
      FilterPermutation(sorted, listing, IsMarkdown);
      FilterPermutation(sorted, listing, IsChapterPage);
    }
  }
}
