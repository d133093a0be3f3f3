/**
What the sync takes from one archive file (cmd/sync/sync.go, the per-file callback of `run`):
its snippets and its docs pages.
*/
module SyncFiles {
  import opened Text
  import opened Slug
  import opened Paths
  import Spans
  import Markers
  import FrontMatter

  datatype ProjectSpec = ProjectSpec(slug: string, docs: string)
  datatype SourceSpec = SourceSpec(name: string, ref: string, lang: string, projects: seq<ProjectSpec>)
  datatype File = File(name: string, data: string)
  datatype LangInfo = LangInfo(prefix: string, scanExt: string, outExt: string)
  datatype DocPage = DocPage(project: string, source: string, slug: string, title: string, body: string)

  predicate IsLang(lang: string) {
    lang == "go" || lang == "typescript" || lang == "python" || lang == "csharp"
  }

  // The language's comment token, the extension scanned, and the extension written
  function InfoOf(lang: string): LangInfo
    requires IsLang(lang)
  {
    if lang == "go" then LangInfo("//", ".go", ".txt")
    else if lang == "typescript" then LangInfo("//", ".ts", ".ts")
    else if lang == "python" then LangInfo("#", ".py", ".py")
    else LangInfo("//", ".cs", ".cs")
  }

  // ---------- Snippets ----------

  // None is an extraction error.
  function FileSnippets(info: LangInfo, f: File): Option<seq<Markers.Snippet>> {
    if !HasSuffix(f.name, info.scanExt) then Some([])
    else match Markers.Extract(f.data, info.prefix)
      case Success(snippets) => Some(snippets)
      case Failure(_) => None
  }

  // ---------- Docs pages ----------

  // The text after "# " on the first line that has it; empty when there is none
  function HeadingIn(lines: seq<string>): string
    decreases |lines|
  {
    if lines == [] then ""
    else if HasPrefix(TrimSpace(lines[0]), "# ") then TrimSpace(TrimSpace(lines[0])[2..])
    else HeadingIn(lines[1..])
  }

  method FirstHeading(body: string) returns (heading: string)
    ensures heading == HeadingIn(Split(body, LF))
  {
    var lines := Split(body, LF);
    for i := 0 to |lines|
      invariant HeadingIn(lines) == HeadingIn(lines[i..])
    {
      assert lines[i..][1..] == lines[i + 1..];
      var line := TrimSpace(lines[i]);
      if HasPrefix(line, "# ") {
        return TrimSpace(line[2..]);
      }
    }
    return "";
  }

  predicate IsDigit(c: char) {
    '0' <= c <= '9'
  }

  function AfterDigits(s: string): string {
    if s != "" && IsDigit(s[0]) then AfterDigits(s[1..]) else s
  }

  // Without a match of ^\d+[-_]
  function WithoutNumber(s: string): string {
    var rest := AfterDigits(s);
    if rest != s && rest != "" && (rest[0] == '-' || rest[0] == '_') then rest[1..] else s
  }

  function DocSlug(lower: Lowering, name: string): string {
    SlugOf(lower, WithoutNumber(TrimSuffix(Base(name), ".md")))
  }

  // The meta title, else the first heading, else the slug
  function DocTitle(meta: map<string, string>, body: string, slug: string): string {
    if "title" in meta && meta["title"] != "" then meta["title"]
    else if HeadingIn(Split(body, LF)) != "" then HeadingIn(Split(body, LF))
    else slug
  }

  predicate IsDocOf(proj: ProjectSpec, name: string) {
    proj.docs != "" && HasPrefix(name, proj.docs + "/") && HasSuffix(name, ".md")
  }

  // None is a front matter error or an empty slug.
  function PageOf(lower: Lowering, proj: ProjectSpec, f: File): Option<DocPage> {
    match FrontMatter.Parse(f.data)
    case Parsed(meta, body) =>
      var slug := DocSlug(lower, f.name);
      if slug == "" then None else Some(DocPage(proj.slug, f.name, slug, DocTitle(meta, body, slug), body))
    case _ => None
  }

  function FilePages(lower: Lowering, projects: seq<ProjectSpec>, f: File): Option<seq<DocPage>> {
    if projects == [] then Some([])
    else
      var proj := projects[|projects| - 1];
      match FilePages(lower, projects[..|projects| - 1], f)
      case None => None
      case Some(pages) =>
        if !IsDocOf(proj, f.name) then Some(pages)
        else match PageOf(lower, proj, f)
          case None => None
          case Some(page) => Some(pages + [page])
  }

  method MakePage(lower: Lowering, proj: ProjectSpec, f: File) returns (page: Option<DocPage>)
    ensures page == PageOf(lower, proj, f)
  {
    var parsed := FrontMatter.ParseFrontMatter(f.data);
    match parsed {
      case Parsed(meta, body) =>
        var slug := Slugify(lower, WithoutNumber(TrimSuffix(Base(f.name), ".md")));
        if slug == "" {
          return None;
        }
        var title := if "title" in meta then meta["title"] else "";
        if title == "" {
          title := FirstHeading(body);
        }
        if title == "" {
          title := slug;
        }
        return Some(DocPage(proj.slug, f.name, slug, title, body));
      case _ =>
        return None;
    }
  }

  lemma {:induction false} NoProjects(lower: Lowering, projects: seq<ProjectSpec>, f: File)
    requires projects == []
    ensures FilePages(lower, projects, f) == Some([])
  {
  }

  lemma {:induction false} FilePagesSnoc(lower: Lowering, projects: seq<ProjectSpec>, f: File, i: nat)
    requires i < |projects| && FilePages(lower, projects[..i], f).Some?
    ensures var before, page := FilePages(lower, projects[..i], f).value, PageOf(lower, projects[i], f);
      FilePages(lower, projects[..i + 1], f) ==
        if !IsDocOf(projects[i], f.name) then Some(before) else if page == None then None
          else Some(before + [page.value])
  {
    hide PageOf, IsDocOf;
    assert projects[..i + 1][..i] == projects[..i];
  }

  method CollectPages(lower: Lowering, projects: seq<ProjectSpec>, f: File, pages0: seq<DocPage>)
      returns (ok: bool, pages: seq<DocPage>)
    ensures ok <==> FilePages(lower, projects, f).Some?
    ensures ok ==> pages == pages0 + FilePages(lower, projects, f).value
  {
    hide FilePages, PageOf, IsDocOf;
    pages := pages0;
    NoProjects(lower, projects[..0], f);
    for i := 0 to |projects|
      invariant FilePages(lower, projects[..i], f).Some? && pages == pages0 + FilePages(lower, projects[..i], f).value
    {
      FilePagesSnoc(lower, projects, f, i);
      if !IsDocOf(projects[i], f.name) {
        continue;
      }
      var page := MakePage(lower, projects[i], f);
      if page == None {
        FilePagesStops(lower, projects, f, i + 1);
        return false, pages;
      }
      pages := pages + [page.value];
    }
    assert projects[..|projects|] == projects;
    return true, pages;
  }

  lemma {:induction false} FilePagesStops(lower: Lowering, projects: seq<ProjectSpec>, f: File, n: nat)
    requires n <= |projects| && FilePages(lower, projects[..n], f) == None
    ensures FilePages(lower, projects, f) == None
    decreases |projects|
  {
    if n == |projects| {
      assert projects[..n] == projects;
    } else {
      assert projects[..|projects| - 1][..n] == projects[..n];
      FilePagesStops(lower, projects[..|projects| - 1], f, n);
    }
  }

  // ---------- What headings and file names give ----------

  ghost predicate IsHeading(line: string) {
    HasPrefix(TrimSpace(line), "# ")
  }

  // The heading is the trimmed text after "# " of the first line that has it; it is empty only
  // when no line has it.
  lemma {:induction false} HeadingIs(lines: seq<string>, k: nat)
    ensures k < |lines| && IsHeading(lines[k]) && (forall j :: 0 <= j < k ==> !IsHeading(lines[j])) ==>
      HeadingIn(lines) == TrimSpace(TrimSpace(lines[k])[2..])
    ensures HeadingIn(lines) == "" <==> forall l <- lines :: !IsHeading(l)
    decreases |lines|
  {
    if lines != [] {
      assert lines == [lines[0]] + lines[1..];
      if IsHeading(lines[0]) {
        assert lines[0] in lines;
        HeadingNotEmpty(lines[0]);
      } else {
        HeadingIs(lines[1..], if k > 0 then k - 1 else 0);
        if 0 < k < |lines| && IsHeading(lines[k]) && forall j :: 0 <= j < k ==> !IsHeading(lines[j]) {
          assert forall j :: 0 <= j < k - 1 ==> lines[1..][j] == lines[j + 1];
          assert lines[1..][k - 1] == lines[k];
        }
      }
    }
  }

  lemma {:induction false} HeadingNotEmpty(line: string)
    requires IsHeading(line)
    ensures TrimSpace(TrimSpace(line)[2..]) != ""
  {
    var t := TrimSpace(line);
    var w1, w2 := TrimSpaceSplits(line);
    assert !IsSpace(t[|t| - 1]);
    var v1, v2 := TrimSpaceSplits(t[2..]);
    assert t[2..][|t| - 3] in t[2..];
  }

  // A numbered page's slug is the slug of its name without directory, number and extension.
  lemma {:induction false} NumberedPageSlug(lower: Lowering, dir: string, digits: string, sep: char, stem: string)
    requires digits != "" && (forall c <- digits :: IsDigit(c)) && (sep == '-' || sep == '_') && '/' !in stem
    ensures DocSlug(lower, dir + "/" + (digits + [sep] + stem + ".md")) == SlugOf(lower, stem)
  {
    var number := digits + [sep] + stem;
    assert '/' !in number + ".md";
    BaseOfFile(dir, number + ".md");
    assert (number + ".md")[|number|..] == ".md";
    assert TrimSuffix(number + ".md", ".md") == number;
    NumberDropped(digits, sep, stem);
  }

  lemma {:induction false} NumberDropped(digits: string, sep: char, stem: string)
    requires digits != "" && (forall c <- digits :: IsDigit(c)) && (sep == '-' || sep == '_')
    ensures WithoutNumber(digits + [sep] + stem) == stem
  {
    AfterDigitsIs(digits, [sep] + stem);
    assert digits + [sep] + stem == digits + ([sep] + stem);
  }

  lemma {:induction false} AfterDigitsIs(digits: string, rest: string)
    requires (forall c <- digits :: IsDigit(c)) && (rest == "" || !IsDigit(rest[0]))
    ensures AfterDigits(digits + rest) == rest
  {
    if digits == "" {
      assert digits + rest == rest;
    } else {
      assert digits[0] in digits && (digits + rest)[1..] == digits[1..] + rest;
      AfterDigitsIs(digits[1..], rest);
    }
  }

  // Each page of a file is the page of one of the projects whose docs the file is in.
  lemma {:induction false} FilePageFrom(lower: Lowering, projects: seq<ProjectSpec>, f: File, page: DocPage)
      returns (proj: ProjectSpec)
    requires FilePages(lower, projects, f).Some? && page in FilePages(lower, projects, f).value
    ensures proj in projects && IsDocOf(proj, f.name) && PageOf(lower, proj, f) == Some(page)
  {
    proj := projects[|projects| - 1];
    var before := projects[..|projects| - 1];
    if page in FilePages(lower, before, f).value {
      proj := FilePageFrom(lower, before, f, page);
    }
  }

  // A page's slug is a slug and its title is never empty.
  lemma {:induction false} PageIsNamed(lower: Lowering, proj: ProjectSpec, f: File)
    requires PageOf(lower, proj, f).Some?
    ensures var page := PageOf(lower, proj, f).value;
      page.project == proj.slug && page.source == f.name && IsSlug(page.slug) && page.title != ""
  {
    SlugShape(lower, WithoutNumber(TrimSuffix(Base(f.name), ".md")));
  }

  // ---------- Topics ----------

  lemma {:induction false} MarkIsTopic(line: string, prefix: string)
    ensures Markers.ParseMarker(line, prefix).Start? ==> Markers.IsTopic(Markers.ParseMarker(line, prefix).topic)
  {
  }

  // Every extracted topic has the shape a topic must have.
  lemma {:induction false} TopicsAreTopics(source: string, prefix: string)
    ensures Markers.Extract(source, prefix).Success? ==> forall sn <- Markers.Extract(source, prefix).value ::
      Markers.IsTopic(sn.topic)
  {
    var r := Markers.Extract(source, prefix);
    if r.Success? {
      var lines := Markers.Lines(source);
      var ms := Markers.Marks(lines, prefix);
      Markers.ExtractIsDeclarative(source, prefix, r.value);
      var spans: seq<Spans.Span> :| Spans.Matches(ms, spans) && Markers.Emitted(r.value, spans, lines, ms);
      forall sn | sn in r.value
        ensures Markers.IsTopic(sn.topic)
      {
        var i :| 0 <= i < |r.value| && r.value[i] == sn;
        assert spans[i] in spans && Spans.IsSpanOf(ms, spans[i]);
        MarkIsTopic(lines[spans[i].start], prefix);
      }
    }
  }
}
