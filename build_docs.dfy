/** build_docs.py: the check that the wiki checkout is the expected
    repository (`pull_wiki_repo`) and the generation of the docsify
    `_sidebar.md` text from the wiki's directory listing
    (`generate_sidebar`). The subprocess calls and the file system are not
    modelled; what the script reads from them arrives as parameters. */
module BuildDocs {
  import opened PyStrings
  import opened Listing
  import opened SubRe

  const GitHubUser := "8BitMixtape"
  const WikiName := "8Bit-Mixtape-NEO.wiki"
  /** The identifier the checkout's `remote.origin.url` must contain. */
  const GitHubWikiRepo := "github.com/" + GitHubUser + "/" + WikiName + ".git"

  /** The value `pull_wiki_repo` returns. `wikiDirExists` is the outcome of
      `os.path.isdir` on the wiki folder; `remoteOut` and `remoteErr` are
      what `git config --get remote.origin.url` wrote to stdout and stderr.
      The final `git pull` is never inspected, so passing the checks is
      success. */
  function PullWikiRepo(wikiDirExists: bool, remoteOut: string, remoteErr: string): (ok: bool)
    ensures ok <==> wikiDirExists && remoteErr == "" && IsSubstring(GitHubWikiRepo, remoteOut)
  {
    if !wikiDirExists then false
    else if remoteErr != "" then false
    else if !Contains(remoteOut, GitHubWikiRepo) then false
    else true
  }

  /** `file.endswith(".md")` */
  predicate IsMarkdown(file: string)
  {
    EndsWith(file, ".md")
  }

  /** A markdown page that `sub_re` does not match: it gets a heading line. */
  predicate IsChapterPage(file: string)
  {
    IsMarkdown(file) && Classify(file) == Chapter
  }

  /** How the title rewrites one character of the name. */
  function TitleChar(c: char): char
  {
    if c == '-' then ' ' else if c == '_' then '.' else c
  }

  /** `file[:-3].replace("-", " ").replace("_", ".")`: the name without its
      last three characters, hyphens shown as spaces and underscores as dots.
      No numeric prefix is removed. */
  function Title(file: string): (title: string)
    ensures |title| == if 3 <= |file| then |file| - 3 else 0
    ensures forall i :: 0 <= i < |title| ==> title[i] == TitleChar(file[i])
    ensures '-' !in title && '_' !in title
  {
    var stem := DropLast(file, 3);
    ReplaceCharAt(stem, '-', ' ');
    ReplaceCharAt(ReplaceChar(stem, '-', ' '), '_', '.');
    ReplaceChar(ReplaceChar(stem, '-', ' '), '_', '.')
  }

  /** `"- %s:" % title` */
  function HeadingLine(file: string): string
  {
    "- " + Title(file) + ":"
  }

  /** `"  - [%s](%s)" % (title, file)`: the link target is the name as listed. */
  function LinkLine(file: string): string
  {
    "  - [" + Title(file) + "](" + file + ")"
  }

  /** The lines one markdown page adds: a sub-item only its link, a chapter
      a heading and then its link. */
  function PageLines(file: string): seq<string>
  {
    if Classify(file) == SubItem then [LinkLine(file)] else [HeadingLine(file), LinkLine(file)]
  }

  /** `path_list` after the loop has visited `files` in order; names that do
      not end in ".md" add nothing. */
  function SidebarLines(files: seq<string>): seq<string>
  {
    if files == [] then []
    else
      var last := files[|files| - 1];
      SidebarLines(files[..|files| - 1]) + (if IsMarkdown(last) then PageLines(last) else [])
  }

  /** What `generate_sidebar` returns: `False` when no markdown page was
      found, otherwise the sidebar text. */
  datatype SidebarResult = NoMarkdownFiles | Generated(text: string)

  /** The result `generate_sidebar` computes from a directory listing. */
  function Sidebar(listing: seq<string>): SidebarResult
  {
    var lines := SidebarLines(SortListing(listing));
    if lines == [] then NoMarkdownFiles else Generated(Join("\n", lines) + "\n")
  }

  /** `generate_sidebar`, with the output of `os.listdir` as its argument. */
  method GenerateSidebar(listDir: seq<string>) returns (result: SidebarResult)
    ensures result == Sidebar(listDir)
  {
    var names := SortListing(listDir);
    var pathList: seq<string> := [];
    for n := 0 to |names|
      invariant pathList == SidebarLines(names[..n])
    {
      var file := names[n];
      assert names[..n + 1][..n] == names[..n];
      if IsMarkdown(file) {
        if Classify(file) == SubItem {
          pathList := pathList + [LinkLine(file)];
        } else {
          pathList := pathList + [HeadingLine(file)];
          pathList := pathList + [LinkLine(file)];
        }
      }
    }
    assert names[..|names|] == names;
    if pathList == [] {
      return NoMarkdownFiles;
    }
    result := Generated(Join("\n", pathList) + "\n");
  }
}
