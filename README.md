# Sidebar generation of the 8Bit Mixtape NEO documentation build

`build_docs.py` builds the documentation site of the 8Bit Mixtape NEO from the
project's GitHub wiki, which is checked out as a git submodule. This project
models two parts of that script in Dafny.

- **`pull_wiki_repo`** accepts the checkout only when:
  - the wiki folder exists;
  - `git config --get remote.origin.url` writes nothing to stderr;
  - its stdout contains the identifier `github.com/8BitMixtape/8Bit-Mixtape-NEO.wiki.git`.
- **`generate_sidebar`** turns the wiki's directory listing into the text of
  docsify's `_sidebar.md`. It works in four steps:
  - it sorts the listing by code point;
  - it keeps the names ending in `.md`;
  - it classifies each name with the pattern `sub_re` = `^([0-9].*_[0-9].*[_ -].*)+$` (used with `re.match`);
  - it writes a chapter page as a heading line `- <title>:` followed by a link line `  - [<title>](<name>)`, and a sub-item page as its link line alone.

  The title is the name without its last three characters, with `-` shown as a space and `_` as a dot. The lines are joined by `"\n"` and end with one more `"\n"`. When no name ends in `.md`, the function returns `False` instead.

Files:

- `pystrings.dfy` (module `PyStrings`): the Python string operations used.
  - `str.endswith`, slicing off a suffix, `str.replace` of one character.
  - Substring search (`in`) against a ghost definition of an occurrence.
  - `str.join`, and a `Split` used only to state that a join can be undone.
- `listing.dfy` (module `Listing`):
  - Python's ordering of unicode strings, with its order laws.
  - `list.sort()` as an insertion sort, proved sorted and a permutation.
  - Uniqueness of sorted sequences.
  - An order-preserving `Filter`.
- `sub_re.dfy` (module `SubRe`):
  - The meaning of `sub_re` under `re.match`, as ghost predicates. These cover the repetition `(...)+`, `.` not matching `'\n'`, and `$` also matching before a final `'\n'`.
  - `Classify`, an executable scan proved equivalent to that meaning.
- `build_docs.dfy` (module `BuildDocs`):
  - The constants.
  - `PullWikiRepo`.
  - The title and line formats.
  - `Sidebar`, the specification function.
  - `GenerateSidebar`, the loop of the script, proved to compute `Sidebar`.
- `sidebar_properties.dfy` (module `SidebarProperties`): what a generated sidebar is made of, stated for all listings.
- `examples_build_docs.dfy` (module `BuildDocsExamples`): concrete names and remote URLs worked through the model.

Two consequences of the code are easy to miss:

- **Titles keep their numeric prefix.** `1_-_Intro.md` gives `1. .Intro` and `2_1-Details.md` gives `2.1 Details`: nothing is stripped, and every `_` becomes a dot.
- **`sub_re` does not need the leading digits to stand directly before the `_`.** `1a_2-x.md` is a sub-item, because the `.*` after the first digit takes the letter. `1_-2-x.md` is a chapter, because no `_` in it is followed by a digit.

## Model

| member | source | states |
|---|---|---|
| BuildDocs.PullWikiRepo | build_docs.py:59-98 | The checkout is accepted exactly when the wiki folder exists, the remote query wrote nothing to stderr, and the identifier `github.com/<user>/<wiki>.git` occurs somewhere in its stdout. |
| PyStrings.Contains | build_docs.py:88 | `needle in haystack` holds exactly when some window of the haystack equals the needle. |
| PyStrings.DropLast | build_docs.py:112 | `s[:-n]` has `max(0, len(s)-n)` characters, and they are the first characters of `s`. |
| PyStrings.ReplaceCharAt | build_docs.py:112 | `s.replace(a, b)` for single characters keeps the length, puts `b` where `s` had `a`, and leaves every other character alone. |
| BuildDocs.Title | build_docs.py:112-115 | The title has `len(name)-3` characters. Each is the name's character at the same position, with `-` shown as a space and `_` as a dot. The title holds no `-` and no `_`. |
| SubRe.RepeatIsOneCopy | build_docs.py:56 | The repetition `(...)+` of the group accepts exactly what one copy of the group accepts. |
| SubRe.HasSubIndexFrom | build_docs.py:56 | The scan finds `_`, then a digit, then later a separator exactly when such positions exist from the given start on. |
| SubRe.SubReOfNewlineFree | build_docs.py:56 | For a name without `'\n'`, `sub_re.match` succeeds exactly when three things hold: the name starts with a digit; a `_` followed by a digit stands at position 1 or later; a `_`, space or `-` stands at least two positions after that `_`. |
| SubRe.Classify | build_docs.py:111 | A name is classified as a sub-item exactly when `sub_re.match` succeeds on it. This includes the final-`'\n'` rule of `$`. |
| Listing.CodePointLeTotal | build_docs.py:105 | Any two names are comparable in Python's string order. |
| Listing.CodePointLeTransitive | build_docs.py:105 | The string order is transitive. |
| Listing.CodePointLeAntisymmetric | build_docs.py:105 | Two names each no later than the other are equal. |
| Listing.CodePointLeAt | build_docs.py:105 | The first differing code point decides the order. |
| Listing.Insert | build_docs.py:105 | Inserting into a sorted listing keeps it sorted and adds exactly that name. |
| Listing.SortListing | build_docs.py:105 | `list_dir.sort()` leaves the names in ascending code-point order and as a permutation of the listing. |
| Listing.SortedUnique | build_docs.py:105 | Two sorted permutations of the same names are equal, so the sorted order does not depend on the order `os.listdir` returns. |
| Listing.FilterPermutation | build_docs.py:107-109 | Filtering permutations of the same names gives permutations of the same kept names. |
| Listing.FilterSorted | build_docs.py:107-109 | Filtering a sorted listing keeps it sorted. |
| Listing.SortFilterCommute | build_docs.py:105-109 | Sorting then dropping names equals dropping names then sorting. |
| BuildDocs.GenerateSidebar | build_docs.py:101-124 | The loop over the sorted listing returns exactly `Sidebar(listing)`: `False` when no line was produced, otherwise the lines joined by `"\n"` plus a final `"\n"`. |
| SidebarProperties.SidebarLinesAppend | build_docs.py:105-115 | The lines for a listing are the lines for its first part followed by the lines for the rest. Lines follow the listing order, with no reordering by title or kind. |
| SidebarProperties.PageInPlace | build_docs.py:107-115 | At its own place in the listing, a name contributes one of three things. A name not ending in `.md` adds nothing. A sub-item page adds only its link line. A chapter page adds its heading line directly followed by its link line. |
| SidebarProperties.SidebarLinesOnlyMarkdown | build_docs.py:107-109 | The lines depend only on the names ending in `.md`. |
| SidebarProperties.SidebarLinesEmptyIff | build_docs.py:107-117 | No line is produced exactly when no name ends in `.md`. |
| SidebarProperties.SidebarLinesCount | build_docs.py:109-115 | There is one line per `.md` name plus one more per chapter page. |
| SidebarProperties.TitleNoNewline | build_docs.py:112 | A name free of `'\n'` has a title free of `'\n'`. |
| SidebarProperties.SidebarLinesNoNewline | build_docs.py:112-115 | Names free of `'\n'` give lines free of `'\n'`. |
| SidebarProperties.SidebarFailsIffNoMarkdown | build_docs.py:117-120 | `generate_sidebar` returns `False` exactly when no name in the listing ends in `.md`. |
| SidebarProperties.SidebarIgnoresListingOrder | build_docs.py:104-105 | Listings holding the same names in any order give the same result. |
| SidebarProperties.SidebarIgnoresNonMarkdown | build_docs.py:107-109 | Adding or removing names not ending in `.md` does not change the result. |
| SidebarProperties.SidebarTextShape | build_docs.py:123 | For names free of `'\n'`, the text ends in `"\n"`. Cutting it at each `"\n"` gives back the lines in order. It holds exactly (#`.md` names) + (#chapter pages) newlines. |
| PyStrings.SplitJoin | build_docs.py:123 | Joining parts free of the separator and cutting at the separator gives back the parts. |
| PyStrings.SplitLength | build_docs.py:123 | Cutting at a character gives one more piece than the character's occurrences. |
| BuildDocsExamples.TitleOfIntro | build_docs.py:112-114 | `1_-_Intro.md` has the title `1. .Intro`. |
| BuildDocsExamples.TitleOfDetails | build_docs.py:112 | `2_1-Details.md` has the title `2.1 Details`. |
| BuildDocsExamples.TitleOfMyFile | build_docs.py:112 | `My-File_1.md` has the title `My File.1`. |
| BuildDocsExamples.DetailsIsSubItem | build_docs.py:56 | `2_1-Details.md` is a sub-item. |
| BuildDocsExamples.ChapterWithoutSubIndex | build_docs.py:56 | `1_-_Intro.md` and `2_-_Setup.md` are chapters: no `_` in them is followed by a digit. |
| BuildDocsExamples.LetterBeforeSubIndexIsSubItem | build_docs.py:56 | `1a_2-x.md` is a sub-item: the `_` need not follow the leading digits directly. |
| BuildDocsExamples.DashAfterUnderscoreIsChapter | build_docs.py:56 | `1_-2-x.md` is a chapter: its only `_` is followed by `-`, not a digit. |
| BuildDocsExamples.NoSeparatorIsChapter | build_docs.py:56 | `2_1.md` is a chapter: no separator follows its sub-index. |
| BuildDocsExamples.ExampleSorted | build_docs.py:105 | `[2_1-Details.md, README.txt, 1_-_Intro.md, 2_-_Setup.md]` sorts to `[1_-_Intro.md, 2_-_Setup.md, 2_1-Details.md, README.txt]`, because `-` sorts before `1`. |
| BuildDocsExamples.ChapterPageLines | build_docs.py:113-115 | A chapter page on its own gives its heading line and then its link line. |
| BuildDocsExamples.SubItemPageLines | build_docs.py:111-112 | A sub-item page on its own gives its link line alone. |
| BuildDocsExamples.ExampleLines | build_docs.py:105-115 | The listing `[2_1-Details.md, README.txt, 1_-_Intro.md, 2_-_Setup.md]` gives the lines `- 1. .Intro:`, `  - [1. .Intro](1_-_Intro.md)`, `- 2. .Setup:`, `  - [2. .Setup](2_-_Setup.md)`, `  - [2.1 Details](2_1-Details.md)`, in that order. |
| BuildDocsExamples.ExampleSidebar | build_docs.py:101-124 | The same listing gives exactly the text of those five lines, each ended by `"\n"`. |
| BuildDocsExamples.NoMarkdownExample | build_docs.py:117-120 | A listing of `README.txt` and `images` gives `False`. |
| BuildDocsExamples.HttpsRemoteAccepted | build_docs.py:88 | The HTTPS remote URL of the wiki is accepted. |
| BuildDocsExamples.StderrRejected | build_docs.py:83-86 | Output on stderr rejects the checkout even when stdout holds the right URL. |
| BuildDocsExamples.SshRemoteRejected | build_docs.py:88-91 | The SSH form `git@github.com:8BitMixtape/8Bit-Mixtape-NEO.wiki.git` is rejected, since it has `:` where the identifier has `/`. |

## Left out

- **Git subprocess calls** (`git submodule update`, `git config --get remote.origin.url`, `git pull`, build_docs.py:74-81,95). These are foreign processes. What the remote query prints, and whether the wiki folder exists, arrive as parameters of `PullWikiRepo`. The outcome of `git pull` is never inspected by the script.
- **Filesystem and directory access** (`os.chdir`, `os.listdir`, `os.path`): these are file-system I/O. The directory listing is the parameter of `GenerateSidebar`.
- **`save_sidebar` and `build_docs`** (writing `_sidebar.md`, `sys.exit`, `print`): these are file output, process control and console messages. The messages of `pull_wiki_repo` and `generate_sidebar` are not modelled either.
- **`chap_re`** (build_docs.py:55): it is compiled but never used.
- **Byte strings under Python 2.** The model treats every string as characters, so it does not capture three decoding errors. In each case the script raises `UnicodeDecodeError` where the model returns a value:
  - stdout of the remote query is a byte string tested against the unicode identifier (build_docs.py:88), so non-ASCII bytes raise instead of rejecting;
  - when stderr holds non-ASCII bytes (a localized git error, say), concatenating it to the unicode error message (build_docs.py:84-85) raises before `return False` (line 86) is reached, whereas `PullWikiRepo` returns `false`;
  - a name that `os.listdir` (build_docs.py:104) cannot decode comes back as a byte string, and `file.endswith(".md")` (line 109) can then raise.
- **Sort order on narrow builds.** On a narrow Python 2 build, unicode strings compare by UTF-16 code unit, so names with characters outside the Basic Multilingual Plane may sort differently there. `SortListing` orders by code point.
- **In-place sort.** `list_dir.sort()` updates the list in place. The model sorts it as a value, since no other reference to the list exists.
- **General regular expressions** are not modelled. Only `sub_re` is, with its meaning written out directly.
