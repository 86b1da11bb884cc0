/** Concrete wiki pages, listings and remote URLs: the titles, kinds and
    order the script gives them, the whole sidebar of a small wiki, and which
    remotes the checkout test accepts. Each example names its concrete values
    in its `requires` (`file == "1_-_Intro.md"`) and states the outcome for
    them in its `ensures`. */
module BuildDocsExamples {
  import opened PyStrings
  import opened Listing
  import opened SubRe
  import opened BuildDocs
  import opened SidebarProperties

  /** A title is fixed by its characters: each one is the name's character
      at the same position, rewritten. */
  lemma TitleFromChars(file: string, title: string)
    requires |file| == |title| + 3
    requires forall i :: 0 <= i < |title| ==> title[i] == TitleChar(file[i])
    ensures Title(file) == title
  {
  }

  /** The numeric prefix stays in the title, rewritten like the rest. */
  lemma TitleOfIntro(file: string)
    requires file == "1_-_Intro.md"
    ensures Title(file) == "1. .Intro"
  {
    TitleFromChars(file, "1. .Intro");
  }

  lemma TitleOfDetails(file: string)
    requires file == "2_1-Details.md"
    ensures Title(file) == "2.1 Details"
  {
    TitleFromChars(file, "2.1 Details");
  }

  lemma TitleOfMyFile(file: string)
    requires file == "My-File_1.md"
    ensures Title(file) == "My File.1"
  {
    TitleFromChars(file, "My File.1");
  }

  /** `_` and a digit after the first character, then a separator later on. */
  lemma DetailsIsSubItem(file: string)
    requires file == "2_1-Details.md"
    ensures Classify(file) == SubItem
  {
    SubReOfNewlineFree(file);
    assert SubIndexAt(file, 1, 3);
  }

  /** No `_` in these names is followed by a digit. */
  lemma NoSubIndexAt(file: string, i: int, k: int)
    requires file == "1_-_Intro.md" || file == "2_-_Setup.md" || file == "1_-2-x.md"
    ensures !SubIndexAt(file, i, k)
  {
    if 1 <= i && i + 2 <= k < |file| && file[i] == '_' {
      assert i == 1 || i == 3;
    }
  }

  lemma ChapterWithoutSubIndex(file: string)
    requires file == "1_-_Intro.md" || file == "2_-_Setup.md"
    ensures Classify(file) == Chapter
  {
    SubReOfNewlineFree(file);
    forall i, k ensures !SubIndexAt(file, i, k) {
      NoSubIndexAt(file, i, k);
    }
  }

  /** The digits need not stand right before the `_`: the `.*` after the
      leading digit takes the letter. */
  lemma LetterBeforeSubIndexIsSubItem(file: string)
    requires file == "1a_2-x.md"
    ensures Classify(file) == SubItem
  {
    SubReOfNewlineFree(file);
    assert SubIndexAt(file, 2, 4);
  }

  /** A digit after a separator that follows `_` does not make a sub-index:
      the `_` itself must be followed by a digit. */
  lemma DashAfterUnderscoreIsChapter(file: string)
    requires file == "1_-2-x.md"
    ensures Classify(file) == Chapter
  {
    SubReOfNewlineFree(file);
    forall i, k ensures !SubIndexAt(file, i, k) {
      NoSubIndexAt(file, i, k);
    }
  }

  /** A `_` followed by a digit but no separator after it: a chapter. */
  lemma NoSeparatorIsChapter(file: string)
    requires file == "2_1.md"
    ensures Classify(file) == Chapter
  {
    SubReOfNewlineFree(file);
  }

  /** The directory listing of the example, in ascending code-point order:
      '-' (U+002D) sorts before '1', and digits before capital letters. */
  lemma ExampleSorted(listing: seq<string>)
    requires listing == ["2_1-Details.md", "README.txt", "1_-_Intro.md", "2_-_Setup.md"]
    ensures SortListing(listing) == [listing[2], listing[3], listing[0], listing[1]]
  {
    var sorted := [listing[2], listing[3], listing[0], listing[1]];
    CodePointLeAt(sorted[0], sorted[1], 0);
    CodePointLeAt(sorted[1], sorted[2], 2);
    CodePointLeAt(sorted[2], sorted[3], 0);
    SortedByNeighbours(sorted);
    assert listing == [listing[0], listing[1], listing[2], listing[3]];
    assert multiset(sorted) == multiset(listing);
    SortedUnique(SortListing(listing), sorted);
  }

  /** A chapter page on its own gives its heading and its link. */
  lemma ChapterPageLines(file: string)
    requires IsChapterPage(file)
    ensures SidebarLines([file]) == [HeadingLine(file), LinkLine(file)]
  {
    SidebarLinesSingle(file);
  }

  /** A sub-item page on its own gives its link alone. */
  lemma SubItemPageLines(file: string)
    requires IsMarkdown(file) && Classify(file) == SubItem
    ensures SidebarLines([file]) == [LinkLine(file)]
  {
    SidebarLinesSingle(file);
  }

  /** The heading and link lines of the example pages, spelled out. */
  lemma IntroLineTexts(file: string)
    requires file == "1_-_Intro.md"
    ensures HeadingLine(file) == "- 1. .Intro:"
    ensures LinkLine(file) == "  - [1. .Intro](1_-_Intro.md)"
  {
    TitleOfIntro(file);
  }

  lemma SetupLineTexts(file: string)
    requires file == "2_-_Setup.md"
    ensures HeadingLine(file) == "- 2. .Setup:"
    ensures LinkLine(file) == "  - [2. .Setup](2_-_Setup.md)"
  {
    TitleFromChars(file, "2. .Setup");
  }

  lemma DetailsLineText(file: string)
    requires file == "2_1-Details.md"
    ensures LinkLine(file) == "  - [2.1 Details](2_1-Details.md)"
  {
    TitleOfDetails(file);
  }

  /** The lines each example page contributes. */
  lemma IntroLines(file: string)
    requires file == "1_-_Intro.md"
    ensures SidebarLines([file]) == ["- 1. .Intro:", "  - [1. .Intro](1_-_Intro.md)"]
  {
    ChapterWithoutSubIndex(file);
    ChapterPageLines(file);
    IntroLineTexts(file);
  }

  lemma SetupLines(file: string)
    requires file == "2_-_Setup.md"
    ensures SidebarLines([file]) == ["- 2. .Setup:", "  - [2. .Setup](2_-_Setup.md)"]
  {
    ChapterWithoutSubIndex(file);
    ChapterPageLines(file);
    SetupLineTexts(file);
  }

  lemma DetailsLines(file: string)
    requires file == "2_1-Details.md"
    ensures SidebarLines([file]) == ["  - [2.1 Details](2_1-Details.md)"]
  {
    DetailsIsSubItem(file);
    SubItemPageLines(file);
    DetailsLineText(file);
  }

  /** Four names give their lines one after the other. */
  lemma FourLines(a: string, b: string, c: string, d: string)
    ensures SidebarLines([a, b, c, d])
         == SidebarLines([a]) + SidebarLines([b]) + SidebarLines([c]) + SidebarLines([d])
  {
    assert [a, b, c, d] == [a] + [b] + [c] + [d];
    SidebarLinesAppend([a] + [b] + [c], [d]);
    SidebarLinesAppend([a] + [b], [c]);
    SidebarLinesAppend([a], [b]);
  }

  /** The example listing once sorted: both chapters with a heading, the
      sub-item as a link alone right after its chapter, README.txt with
      nothing. */
  lemma SortedExampleLines(intro: string, setup: string, details: string, readme: string)
    requires intro == "1_-_Intro.md" && setup == "2_-_Setup.md"
    requires details == "2_1-Details.md" && readme == "README.txt"
    ensures SidebarLines([intro, setup, details, readme])
         == ["- 1. .Intro:", "  - [1. .Intro](1_-_Intro.md)",
             "- 2. .Setup:", "  - [2. .Setup](2_-_Setup.md)",
             "  - [2.1 Details](2_1-Details.md)"]
  {
    FourLines(intro, setup, details, readme);
    IntroLines(intro);
    SetupLines(setup);
    DetailsLines(details);
    SidebarLinesSingle(readme);
  }

  /** The same lines from the listing in directory order. */
  lemma ExampleLines(listing: seq<string>)
    requires listing == ["2_1-Details.md", "README.txt", "1_-_Intro.md", "2_-_Setup.md"]
    ensures SidebarLines(SortListing(listing))
         == ["- 1. .Intro:", "  - [1. .Intro](1_-_Intro.md)",
             "- 2. .Setup:", "  - [2. .Setup](2_-_Setup.md)",
             "  - [2.1 Details](2_1-Details.md)"]
  {
    ExampleSorted(listing);
    SortedExampleLines(listing[2], listing[3], listing[0], listing[1]);
  }

  /** Joining five lines with "\n" and adding a final "\n" ends every line
      with "\n". */
  lemma JoinFive(l0: string, l1: string, l2: string, l3: string, l4: string)
    ensures Join("\n", [l0, l1, l2, l3, l4]) + "\n"
         == (l0 + "\n") + (l1 + "\n") + (l2 + "\n") + (l3 + "\n") + (l4 + "\n")
  {
    var lines := [l0, l1, l2, l3, l4];
    assert Join("\n", lines[4..]) == l4;
    assert Join("\n", lines[3..]) == l3 + "\n" + l4;
    assert Join("\n", lines[2..]) == l2 + "\n" + (l3 + "\n" + l4);
    assert Join("\n", lines[1..]) == l1 + "\n" + (l2 + "\n" + (l3 + "\n" + l4));
  }

  /** The whole `_sidebar.md` text of the example wiki. Titles keep their
      numeric prefix, with every `_` shown as a dot. */
  lemma ExampleSidebar(listing: seq<string>)
    requires listing == ["2_1-Details.md", "README.txt", "1_-_Intro.md", "2_-_Setup.md"]
    ensures Sidebar(listing)
         == Generated("- 1. .Intro:\n" + "  - [1. .Intro](1_-_Intro.md)\n"
                    + "- 2. .Setup:\n" + "  - [2. .Setup](2_-_Setup.md)\n"
                    + "  - [2.1 Details](2_1-Details.md)\n")
  {
    ExampleLines(listing);
    var lines := SidebarLines(SortListing(listing));
    JoinFive(lines[0], lines[1], lines[2], lines[3], lines[4]);
    ExampleLineEnds(lines);
  }

  /** Each example line followed by its "\n". */
  lemma ExampleLineEnds(lines: seq<string>)
    requires lines == ["- 1. .Intro:", "  - [1. .Intro](1_-_Intro.md)",
                       "- 2. .Setup:", "  - [2. .Setup](2_-_Setup.md)",
                       "  - [2.1 Details](2_1-Details.md)"]
    ensures lines[0] + "\n" == "- 1. .Intro:\n"
    ensures lines[1] + "\n" == "  - [1. .Intro](1_-_Intro.md)\n"
    ensures lines[2] + "\n" == "- 2. .Setup:\n"
    ensures lines[3] + "\n" == "  - [2. .Setup](2_-_Setup.md)\n"
    ensures lines[4] + "\n" == "  - [2.1 Details](2_1-Details.md)\n"
  {
  }

  /** A listing without markdown pages makes generation fail. */
  lemma NoMarkdownExample(listing: seq<string>)
    requires listing == ["README.txt", "images"]
    ensures Sidebar(listing) == NoMarkdownFiles
  {
    assert !IsMarkdown(listing[0]) && !IsMarkdown(listing[1]);
    SidebarFailsIffNoMarkdown(listing);
  }

  /** The HTTPS remote of the wiki is accepted. */
  lemma HttpsRemoteAccepted(url: string)
    requires url == "https://" + GitHubWikiRepo + "\n"
    ensures PullWikiRepo(true, url, "")
  {
    assert url[8..8 + |GitHubWikiRepo|] == GitHubWikiRepo;
    assert OccursAt(GitHubWikiRepo, url, 8);
  }

  /** Anything written to stderr rejects the checkout, whatever the URL. */
  lemma StderrRejected(url: string, err: string)
    requires url == "https://" + GitHubWikiRepo + "\n"
    requires err == "fatal: bad config line 1\n"
    ensures !PullWikiRepo(true, url, err)
  {
  }

  /** The SSH form of the same remote has ':' after the host where the
      identifier has '/': no window of it starts with "github.com/". */
  lemma SshNoOccurrence(url: string, i: int)
    requires url == "git@github.com:" + GitHubUser + "/" + WikiName + ".git\n"
    ensures !OccursAt(GitHubWikiRepo, url, i)
  {
    assert GitHubWikiRepo[0] == 'g' && GitHubWikiRepo[10] == '/';
    if 0 <= i <= |url| - |GitHubWikiRepo| {
      var window := url[i..i + |GitHubWikiRepo|];
      assert window[0] == url[i] && window[10] == url[i + 10];
      assert url[i] != 'g' || url[i + 10] != '/';
    }
  }

  /** So the SSH remote is rejected. */
  lemma SshRemoteRejected(url: string)
    requires url == "git@github.com:" + GitHubUser + "/" + WikiName + ".git\n"
    ensures !PullWikiRepo(true, url, "")
  {
    forall i ensures !OccursAt(GitHubWikiRepo, url, i) {
      SshNoOccurrence(url, i);
    }
  }
}
