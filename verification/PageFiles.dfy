/**
What one archive file gives (cmd/sync/sync.go, the per-file callback of `run`): the title, slug and
body of its page, the projects it is a page of, and its snippets.
*/
module PageFiles {
  import opened Text
  import opened Slug
  import opened Paths
  import opened SyncFiles
  import FrontMatter
  import Markers

  // ---------- Titles ----------

  ghost predicate IsFirstHeading(lines: seq<string>, k: int) {
    0 <= k < |lines| && IsHeading(lines[k]) && forall j :: 0 <= j < k ==> !IsHeading(lines[j])
  }

  // The title is the front matter's, when it is not empty, whatever the body; else the first
  // heading of the body; else, when the body has none, the slug.
  lemma {:induction false} PageTitle(lower: Lowering, proj: ProjectSpec, f: File, k: nat)
    requires PageOf(lower, proj, f).Some?
    ensures FrontMatter.Parse(f.data).Parsed?
    ensures var page, meta := PageOf(lower, proj, f).value, FrontMatter.Parse(f.data).meta;
      var body := FrontMatter.Parse(f.data).body;
      var lines := Split(body, LF);
      && page.body == body && page.slug == DocSlug(lower, f.name)
      && ("title" in meta && meta["title"] != "" ==> page.title == meta["title"])
      && (!("title" in meta && meta["title"] != "") ==>
            && (IsFirstHeading(lines, k) ==> page.title == TrimSpace(TrimSpace(lines[k])[2..]))
            && ((forall l <- lines :: !IsHeading(l)) ==> page.title == page.slug))
  {
    hide FrontMatter.Parse, DocSlug, Split, IsHeading;
    var lines := Split(FrontMatter.Parse(f.data).body, LF);
    HeadingIs(lines, k);
    if IsFirstHeading(lines, k) {
      assert lines[k] in lines;
    }
  }

  // The i-th pair is the last with the key.
  ghost predicate IsLastPair(pairs: seq<(string, string)>, key: string, i: int) {
    0 <= i < |pairs| && pairs[i].0 == key && forall j :: i < j < |pairs| ==> pairs[j].0 != key
  }

  // A page written as a block of pairs and a body: its title is the last title pair's value when
  // that is not empty, whatever the body; else the body's first heading; else the slug.
  lemma {:induction false} PrintedTitle(lower: Lowering, proj: ProjectSpec, name: string, pairs: seq<(string, string)>,
                                        body: string, i: int, k: nat)
    requires (forall p <- pairs :: FrontMatter.CanPrint(p)) && DocSlug(lower, name) != ""
    ensures var page := PageOf(lower, proj, File(name, FrontMatter.Print(pairs, body)));
      var lines := Split(body, LF);
      && page.Some? && page.value.body == body && page.value.slug == DocSlug(lower, name)
      && (IsLastPair(pairs, "title", i) && pairs[i].1 != "" ==> page.value.title == pairs[i].1)
      && ((forall p <- pairs :: p.0 != "title") || (IsLastPair(pairs, "title", i) && pairs[i].1 == "") ==>
            && (IsFirstHeading(lines, k) ==> page.value.title == TrimSpace(TrimSpace(lines[k])[2..]))
            && ((forall l <- lines :: !IsHeading(l)) ==> page.value.title == page.value.slug))
  {
    var f := File(name, FrontMatter.Print(pairs, body));
    FrontMatter.PrintParses(pairs, body);
    LastTitle(pairs, i);
    hide FrontMatter.Parse, FrontMatter.Print, FrontMatter.LastValues, FrontMatter.CanPrint;
    hide DocSlug, Split, IsHeading, IsFirstHeading;
    assert PageOf(lower, proj, f).Some?;
    PageTitle(lower, proj, f, k);
  }

  lemma {:induction false} LastTitle(pairs: seq<(string, string)>, i: int)
    ensures var meta := FrontMatter.LastValues(pairs);
      && (IsLastPair(pairs, "title", i) ==> "title" in meta && meta["title"] == pairs[i].1)
      && ((forall p <- pairs :: p.0 != "title") ==> "title" !in meta)
  {
    hide FrontMatter.LastValues;
    FrontMatter.LastValuesWin(pairs);
    if forall p <- pairs :: p.0 != "title" {
      assert forall j :: 0 <= j < |pairs| ==> pairs[j] in pairs;
    }
  }

  // ---------- Slugs ----------

  // The name starts with digits and a hyphen or underscore.
  ghost predicate IsNumbered(name: string, digits: string, sep: char, stem: string) {
    && digits != "" && (forall c <- digits :: '0' <= c <= '9') && (sep == '-' || sep == '_')
    && name == digits + [sep] + stem
  }

  // A number is dropped, and a name without one is left as it is.
  lemma {:induction false} WithoutNumberIs(name: string, r: string)
    ensures WithoutNumber(name) == r <==>
      (exists digits, sep :: IsNumbered(name, digits, sep, r)) ||
      (r == name && !exists digits, sep, stem :: IsNumbered(name, digits, sep, stem))
  {
    forall digits, sep, stem | IsNumbered(name, digits, sep, stem)
      ensures WithoutNumber(name) == stem
    {
      assert forall c <- digits :: IsDigit(c);
      NumberDropped(digits, sep, stem);
    }
    var digits := DigitsBefore(name);
    if WithoutNumber(name) != name {
      var rest := AfterDigits(name);
      assert name == digits + [rest[0]] + rest[1..];
      assert IsNumbered(name, digits, rest[0], rest[1..]);
    }
    if digits, sep, stem :| IsNumbered(name, digits, sep, stem) {
      assert |stem| < |name|;
    }
  }

  lemma {:induction false} DigitsBefore(name: string) returns (digits: string)
    ensures name == digits + AfterDigits(name) && forall c <- digits :: '0' <= c <= '9'
  {
    digits := "";
    if name != "" && IsDigit(name[0]) {
      var more := DigitsBefore(name[1..]);
      digits := [name[0]] + more;
    }
  }

  // The slug of a page without a number, in a directory or not
  lemma {:induction false} PlainPageSlug(lower: Lowering, dir: string, stem: string)
    requires '/' !in stem && !exists digits, sep, rest :: IsNumbered(stem, digits, sep, rest)
    ensures DocSlug(lower, dir + "/" + (stem + ".md")) == SlugOf(lower, stem)
    ensures DocSlug(lower, stem + ".md") == SlugOf(lower, stem)
  {
    hide SlugOf;
    WithoutNumberIs(stem, stem);
    assert '/' !in ".md";
    BaseOfFile(dir, stem + ".md");
    BaseOfName(stem + ".md");
    assert (stem + ".md")[|stem|..] == ".md";
  }

  // ---------- Projects ----------

  // A file is a page of a project when it is a markdown file in the project's docs directory.
  lemma {:induction false} DocOfIff(proj: ProjectSpec, name: string)
    ensures IsDocOf(proj, name) <==>
      proj.docs != "" && (exists rest :: name == proj.docs + "/" + rest) && |name| >= 3 && name[|name| - 3..] == ".md"
  {
    if IsDocOf(proj, name) {
      assert name == proj.docs + "/" + name[|proj.docs| + 1..];
    }
  }

  // The projects a file is a page of, in order
  function DocProjects(projects: seq<ProjectSpec>, name: string): seq<ProjectSpec> {
    if projects == [] then []
    else
      var before, last := DocProjects(projects[..|projects| - 1], name), projects[|projects| - 1];
      if IsDocOf(last, name) then before + [last] else before
  }

  // A file gives one page for each project it is a page of, in order; it is in error when it is a
  // page of one and has no readable front matter or no slug.
  lemma {:induction false} PagesOfFile(lower: Lowering, projects: seq<ProjectSpec>, f: File)
    ensures var mine, pages := DocProjects(projects, f.name), FilePages(lower, projects, f);
      && (pages == None <==>
            mine != [] && !(FrontMatter.Parse(f.data).Parsed? && DocSlug(lower, f.name) != ""))
      && (pages.Some? ==> |pages.value| == |mine| && forall k :: 0 <= k < |mine| ==>
            PageOf(lower, mine[k], f) == Some(pages.value[k]))
  {
    hide IsDocOf, FrontMatter.Parse, DocSlug, DocTitle;
    if projects != [] {
      PagesOfFile(lower, projects[..|projects| - 1], f);
      var mine := DocProjects(projects[..|projects| - 1], f.name);
      assert mine + [] == mine;
    }
  }

  // ---------- Snippets ----------

  // The comment token, the extension scanned and the extension written of each language
  lemma {:induction false} Languages(lang: string)
    ensures IsLang(lang) <==> lang == "go" || lang == "typescript" || lang == "python" || lang == "csharp"
    ensures InfoOf("go") == LangInfo("//", ".go", ".txt") && InfoOf("typescript") == LangInfo("//", ".ts", ".ts")
    ensures InfoOf("python") == LangInfo("#", ".py", ".py") && InfoOf("csharp") == LangInfo("//", ".cs", ".cs")
  {
    assert "typescript"[0] != "go"[0] && "python"[0] != "go"[0] && "csharp"[0] != "go"[0];
    assert "python"[0] != "typescript"[0] && "csharp"[0] != "typescript"[0] && "csharp"[0] != "python"[0];
  }

  // Only files with the language's extension are scanned, and those are extracted from.
  lemma {:induction false} SnippetsOfFile(info: LangInfo, stem: string, ext: string, data: string)
    requires |ext| == |info.scanExt|
    ensures ext != info.scanExt ==> FileSnippets(info, File(stem + ext, data)) == Some([])
    ensures ext == info.scanExt ==>
      (FileSnippets(info, File(stem + ext, data)).Some? <==> Markers.Extract(data, info.prefix).Success?)
    ensures ext == info.scanExt && Markers.Extract(data, info.prefix).Success? ==>
      FileSnippets(info, File(stem + ext, data)).value == Markers.Extract(data, info.prefix).value
  {
    hide Markers.Extract;
    assert (stem + ext)[|stem + ext| - |ext|..] == ext;
  }
}
