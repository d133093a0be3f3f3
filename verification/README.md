# codepuke: the write-time content tools, verified

This project models the tools that turn marked source files and markdown pages into what the
codepuke site serves, and proves what each promises. The chain, in order:

1. **Snippets** (`Dedent`, `Spans`, `ScanErrors`, `Nesting`, `Markers`, `MarkerLines`, `Reextract`).
   `MarkerLines` says how every line reads, in terms of its text. The extractor is a one-pass
   machine over lines with a mutable list of open regions. `Spans.Matches` says, without any
   machine, which regions a sequence of markers denotes; the extractor is proved to accept exactly
   the sequences that denote regions and to return each region's dedented content lines, or the
   first error. Code that was extracted can be marked and extracted again.
2. **The sync run** (`FrontMatter`, `Paths`, `Order`, `Entries`, `SyncFiles`, `PageFiles`, `SyncRun`,
   `RunOutcome`). A walk over every source's archive collects snippets and pages, rejects
   duplicates, sorts, and lists them in a manifest. `PageFiles` says which file is a page, under
   which slug and title, and `RunOutcome` exactly when a run succeeds. `ArchiveOrder` proves that
   the order of the files in an archive makes no difference; `Conservation` and `OutputFiles` that
   nothing is lost or repeated in the manifest and the snippet files, and `DocFiles` exactly when no
   docs page overwrites another.
3. **Slugs, anchors and the outline** (`Slug`, `SlugText`, `Anchors`, `Outline`, `OutlineReading`).
   `SlugText` says which characters of a text are in its slug. Derived ids are new in their document,
   the unbounded search for a free id ends, and labels count the h2s. The docs navigation reads back
   exactly the headings that were printed; `OutlineReading` says what its expressions match in any
   HTML.
4. **Diagrams** (`Splice`, `Mermaid`, `Checksum`, `MermaidCache`). Splicing diagrams in one after
   another is compared with substituting all of them at once, and the diagram cache, under any
   interleaving of calls, with a renderer that has no cache.
5. **The store** (`DocStore`, `DocSync`, `Convergence`, `Tags`, `Admin`, `ArticleRuns`). Tables with their
   constraints, the docs sync and the article editor as operations on them, convergence of the docs
   to the manifest, and invariants over every run. `Deployment` joins the ends: a page in an archive
   is what a reader finds.

Code that updates state step by step is a method, or a class with methods, proved against a
specification function; what the source promises is then proved about that function. `Text` holds
the string operations of Go's standard library that the code is made of.

Some properties hold only under a condition. Each is then stated with the exact condition:

- Extracting extracted code again gives back the same code exactly when none of its lines ends in
  a carriage return, which the extractor strips (`Reextract.ReExtraction`).
- When each token occurs once in the page, no diagram is lost in the splice exactly when no two
  tokens overlap (`Splice.NoneLostIffApart`). Tokens that each stand in a paragraph of their own, as
  they are written, never overlap (`Mermaid.DocumentSpliced`). A token may end in the letter the
  next one starts with, and two tokens that share that letter overlap: then all other conditions
  hold and a diagram is lost (`Mermaid.OverlapLosesDiagram`).
- The cache agrees with the uncached renderer, for calls about a set of sources, exactly when
  sources of that set with equal checksums render alike (`MermaidCache.AgreementIffHarmless`).
- The outline returns the printed titles exactly when none starts with white space
  (`Outline.OutlineRoundTrip`).
- A sync leaves the projects only rows of listed pages exactly when the store holds no stale row that
  it keeps (`Convergence.OnlyListedExactly`). It is so whatever the store held before exactly when
  every kept entry that a known project can make is that of a page of the project, and the prune runs
  or there are no projects (`Convergence.OnlyListedIff`). Two inputs break this: a slash in a slug, as
  the page `b/c` of project `a` keeps the stale page `c` of project `a/b`
  (`Convergence.SlashKeepsStaleRow`), and a manifest without pages whose keep list the driver sends as
  a null array, which prunes nothing (`Convergence.NullArrayKeepsStaleRow`). The output of a sync run
  has slash-free docs slugs, so over stores that only such output has filled the first cannot happen,
  whatever the projects are called (`Deployment.RunLeavesListed`, `Deployment.SiteServesArchives`).
  That listed pages are held and served, and that other rows are untouched, holds for every manifest.
- The regions of an accepted file do not cross exactly when each end marker closes the youngest open
  region (`Nesting.LaminarIff`). Bare ends always do; named ends need not (`Nesting.NamedEndsMayCross`).
- There is one docs file for each listed page exactly when no two projects whose directories are the
  same once cleaned have a page with the same slug (`DocFiles.DocsConserved`). Projects `a` and `./a`
  share theirs, and a run that succeeds can then lose a page (`DocFiles.DottedProjectLosesPage`).

`dafny verify dfyconfig.toml` checks everything.

## Model

| member | source | states |
|---|---|---|
| Dedent.IndentIsGreatestCommon | cmd/sync/markers.go:142-155 | the indentation the loop accumulates is the greatest that all non-blank lines share: a string of spaces and tabs starts them all exactly when it is a prefix of it |
| Dedent.DedentShape | cmd/sync/markers.go:129-167 | dedent keeps exactly the lines from the first to the last non-blank one; each kept non-blank line is the shared indentation followed by its output line, blank ones are emptied |
| Dedent.DedentIsTight | cmd/sync/markers.go:126-128 | the output lines share no further indentation, so the longest was removed |
| Dedent.DedentIdempotent | cmd/sync/markers.go:126-167 | dedenting dedented code, split back into lines, changes nothing |
| Dedent.CommonPrefixOf | cmd/sync/markers.go:169-177 | the index loop returns the longest common prefix |
| Dedent.DedentRegion | cmd/sync/markers.go:129-167 | the trimming, indenting and writing loops compute the specified dedent |
| Spans.ScanKeepsInv | cmd/sync/markers.go:51-86 | loop invariant: open topics are pairwise distinct, closed topics too, none is both, together they are `seen`; every start and end read so far belongs to a region; regions closed by bare ends cross nothing |
| Spans.ScanIffMatches | cmd/sync/markers.go:51-90 | one pass accepts exactly the marker sequences that denote regions, and finds those, in closing order |
| Nesting.BareAcceptance | cmd/sync/markers.go:62-88 | with bare ends only, the accepted sequences are exactly the balanced words of well-formed markers with distinct topics |
| Nesting.BareRegionsAreLaminar | cmd/sync/markers.go:69-84 | with bare ends only, any two regions are nested or disjoint |
| Nesting.LaminarIff | cmd/sync/markers.go:69-84 | the regions of an accepted sequence do not cross exactly when each end marker, bare or named, closes the youngest open region |
| Nesting.NamedEndsMayCross | cmd/sync/markers.go:70-78 | two regions closed by name can cross |
| Nesting.SearchDirectionIrrelevant | cmd/sync/markers.go:72-77 | a named end meets at most one open region, so searching backwards or forwards finds the same |
| Nesting.CountsAgree | cmd/sync/markers.go:51-90 | starts, ends and snippets are equally many |
| Markers.ExtractSnippets | cmd/sync/markers.go:40-91 | the machine over the heap-allocated open list returns the specified snippets or the specified error with its line number |
| Markers.CloseRegion | cmd/sync/markers.go:82-84 | closing removes one region from the open list, keeps what the others hold, and emits its dedented content |
| Markers.FindOpen | cmd/sync/markers.go:69-78 | the backward search finds the region the end marker closes |
| Markers.ExtractIsDeclarative | cmd/sync/markers.go:40-91 | extraction returns a list of snippets exactly when the markers denote regions and the list holds, in closing order, the dedent of the content lines strictly inside each |
| Markers.NestedContent | cmd/sync/markers.go:58-61 | a nested region's content lines are one contiguous block of the outer region's |
| MarkerLines.CommentReads | cmd/sync/markers.go:101-123 | how every comment reads, each case both ways: without `snippet:` it is content; it is `Start(t)` or `End(t)` exactly when it is the verb, a space and `t` among white space with `t` a topic, or the bare verb for an end without topic; every other comment is malformed in one of three ways |
| MarkerLines.CommentIs | cmd/sync/markers.go:95-100 | a line is a comment exactly when only white space precedes the token, and the comment is the trimmed rest |
| MarkerLines.WrittenLines | cmd/sync/markers.go:95-124 | the lines that start and end a topic by name read as `Start(t)` and `End(t)` |
| MarkerLines.NamedEnd | cmd/sync/markers.go:68-84 | the two-line file that starts `a` and ends `b` is one empty snippet when the names are equal, and otherwise fails with an unmatched end in line 2 |
| ScanErrors.ErrorIsFirst | cmd/sync/markers.go:51-81 | the error names the first line, counted from one, that is malformed, repeats a topic or ends no open region, and which of these it is |
| ScanErrors.LeftOpenIsYoungest | cmd/sync/markers.go:87-89 | when regions are left open, the one named is the last that was started and not closed |
| Reextract.DedentedLinesAreContent | cmd/sync/markers.go:95-124 | dedent never turns a content line into a marker or a malformed marker |
| Reextract.CodeLines | cmd/sync/markers.go:157-166 | extracted code splits back into the lines it was written from |
| Reextract.ReExtraction | cmd/sync/markers.go:40-167 | extracted code, marked and extracted again, is one snippet with the same code exactly when no line of it ends in a carriage return |
| FrontMatter.ParseFrontMatter | cmd/sync/frontmatter.go:22-55 | the offset-driven scanner stays in bounds, ends, and computes the line-by-line reading |
| FrontMatter.OpenedIffPrefixed | cmd/sync/frontmatter.go:24-26 | the two prefixes tested are exactly a first line `---` that ends |
| FrontMatter.BlockMeaning | cmd/sync/frontmatter.go:28-54 | for every document: the block is closed by the first later `---` line after pairs and blank lines only; otherwise the error names the first other line, or says that the block never closes |
| FrontMatter.BodyIsSuffix | cmd/sync/frontmatter.go:19-21 | the body is always a suffix of the document |
| FrontMatter.PrintParses | cmd/sync/frontmatter.go:12-55 | a printed block of pairs followed by any body parses to the last value of each key and exactly that body |
| FrontMatter.LastValuesWin | cmd/sync/frontmatter.go:53 | a repeated key keeps its last value |
| FrontMatter.UnopenedIsBody | cmd/sync/frontmatter.go:24-26 | a document without a fence line at its start has no pairs and is its own body |
| FrontMatter.PairIff | cmd/sync/frontmatter.go:49-53 | a line is a pair exactly when it is a key of letters, digits, underscores and hyphens, a colon, and the trimmed value among white space |
| Slug.Slugify | internal/content/slug.go:12-28 | the pending-hyphen loop computes the maximal alphanumeric runs of the lowered text joined by single hyphens |
| Slug.SlugShape | internal/content/slug.go:8-12 | a slug is empty or slug-shaped, slugging is idempotent, and the non-empty texts it leaves alone are exactly the slug-shaped ones |
| SlugText.SlugCharacters | internal/content/slug.go:12-28 | without its hyphens the slug is the letters and digits of the lower-cased text in order, and a hyphen stands between two of them exactly when a character between them was dropped |
| SlugText.EmptyBase | internal/content/slug.go:33-36 | a heading without letters and digits gets the id `section` when it is free |
| Slug.TakenBelowBound | internal/content/slug.go:41-47 | pigeonhole: a run of taken candidates is no longer than the set of ids seen, so the unbounded loop ends |
| Slug.FreshIdIsLeast | internal/content/slug.go:33-48 | the id issued was not seen; it is the base, or the base with the least free suffix, which is at most the number of ids seen plus one |
| Slug.IdRegistry.Dedupe | internal/content/slug.go:33-48 | the loop returns that id, ends, and adds exactly that id to those seen |
| Anchors.Transform | internal/content/anchors.go:22-55 | after the tree walk every heading, in document order, has the id it had or else the one issued for the slug of its text given the ids of the headings before it, and exactly the h2s have a chip in front of their children, with their id and the number of h2s so far |
| Anchors.HeadingAnchors.Give | internal/content/anchors.go:36-52 | one heading on its own: its id is the explicit one or the one issued, and is then seen; an h2 is counted and gets its chip |
| Anchors.HeadingAnchors.VisitHeading | internal/content/anchors.go:31-53 | one heading gets its anchor and the others are left as they were |
| Anchors.DerivedIdsAreNew | internal/content/anchors.go:36-42 | every derived id is a slug and differs from every id issued earlier, derived or explicit |
| Anchors.IdsDistinct | internal/content/anchors.go:18-42 | without explicit ids all ids of a document are distinct |
| Anchors.LabelsCountH2s | internal/content/anchors.go:44-52 | a heading has a label exactly when it is an h2, and the k-th h2 is labelled k |
| Anchors.LabelsDistinct | internal/content/anchors.go:44-46 | no two h2s of a document have the same label |
| Anchors.LabelsWritten | internal/content/anchors.go:46 | labels are hexadecimal with two digits at least: `0x01`, `0x0a`, `0x1f`, `0x100` |
| Anchors.ExplicitIdKept | internal/content/anchors.go:36-46 | an explicit id is kept, and exactly the h2s have a label |
| Anchors.DerivedIdIs | internal/content/anchors.go:38-42 | a heading without an explicit id gets the one issued for the slug of its text, given the ids of all earlier headings |
| Anchors.TextOfParts | internal/content/anchors.go:74-89 | the text of a heading is that of its leaves in order, however deep they are nested |
| Anchors.HeadingsInOrder | internal/content/anchors.go:27-35 | the walk meets the headings in document order, in and out of containers |
| Outline.ExtractSections | internal/web/sections.go:21-32 | the loop over the matches computes the sections of all leftmost matches |
| Outline.PageSections | internal/web/sections.go:13-33 | a page printed with any headings and any text between them reads back as those headings in order, titles without the white space they start with |
| Outline.OutlineRoundTrip | internal/content/anchors.go:106-113 | printing headings and reading the outline back is the identity exactly when no title starts with white space |
| OutlineReading.MatchIff | internal/web/sections.go:14 | on any text, the heading expression matches at the start exactly when the text is an h2 start tag with a non-empty id, a chip with a non-empty text, white space, and the rest up to the first end tag, which is the title |
| OutlineReading.FindAllIs | internal/web/sections.go:23 | the leftmost match comes first and the search goes on behind it |
| OutlineReading.TagDropped | internal/web/sections.go:15 | a tag is dropped with what is in it, the text around it stays, and so does a bracket that nothing closes |
| OutlineReading.Entities | internal/content/anchors.go:111 | the five characters that are escaped and what each becomes; text without an ampersand is read as it is |
| Splice.RenderSplice | internal/content/pipeline.go:153-162 | the loop over the slots computes the sequential splice |
| Splice.SpliceOneIs | internal/content/pipeline.go:153-161 | one turn of the loop puts the figure in place of the first paragraph of the token, or else of the first token, or else changes nothing |
| Splice.FigureIs | internal/content/pipeline.go:154-155 | the figure is the diagram in its markup |
| Splice.SpliceIsSubstitution | internal/content/pipeline.go:153-162 | for tokens that occur once, do not overlap and are in no diagram, splicing slot by slot equals substituting every figure at once, with its paragraph where there is one and all other text unchanged |
| Splice.SpliceAnyOrder | internal/content/pipeline.go:153-162 | under the same conditions the order of the slots makes no difference |
| Splice.NoneLostIffApart | internal/content/pipeline.go:153-162 | no diagram is lost exactly when no two tokens overlap in the text |
| Splice.ParagraphsSplice | internal/content/pipeline.go:153-162 | when each token in the text occurs once and is a paragraph of its own, the loop is the simultaneous substitution in every order of the slots and loses no diagram |
| Mermaid.RenderMermaid | internal/content/pipeline.go:174-203 | each fence that renders becomes its token's paragraph and gets the next slot; unavailable ones stay code blocks; an error ends the run |
| Mermaid.RenderFence | internal/content/pipeline.go:184-201 | one fence: replaced and given a slot, left alone, or an error |
| Mermaid.OtherNodesStay | internal/content/pipeline.go:175-181 | the fences are exactly the code blocks in the language `mermaid`, and every other node stays |
| Mermaid.SlotOfDiagram | internal/content/pipeline.go:183-200 | a diagram that is drawn has the slot numbered by the diagrams drawn before it, with the token of its number and checksum |
| Mermaid.FenceRendered | internal/content/pipeline.go:184-201 | in the rendered document the fence of a drawn diagram is the paragraph of its slot's token, and one that was not drawn is as it was |
| Mermaid.TokenIs | internal/content/pipeline.go:194-195 | a token is `codepuke-mermaid-`, the slot's number, a hyphen and the first sixteen digits of the diagram's checksum |
| Mermaid.TokensNotNested | internal/content/pipeline.go:194-195 | tokens of different slots are not parts of one another |
| Mermaid.AllocatedTokensOk | internal/content/pipeline.go:194-200 | the slots of one document satisfy what the splice theorems ask of tokens |
| Mermaid.DocumentSpliced | internal/content/pipeline.go:141-203 | for the slots allocated for any document, on a page that has each of their tokens once and in its paragraph, the splice is the simultaneous substitution in every order and loses no diagram |
| Mermaid.OverlapLosesDiagram | internal/content/pipeline.go:153-162 | two tokens that share one letter, each there once and in no diagram: replacing the first loses the second |
| MermaidCache.RewriteClears | internal/content/mermaid_http.go:83-88 | whatever the sidecar answers, the two replacements leave neither `id="container"` nor `#container` |
| MermaidCache.KrokiMermaid.RenderSVG | internal/content/mermaid_http.go:54-94 | a cached answer is returned and nothing changes; on a miss there is an answer exactly when the response is a reply with status 200, which is then rewritten, stored and returned; without an answer the cache stays as it was |
| MermaidCache.ResponseIs | internal/content/mermaid_http.go:69-93 | exactly the replies with status 200 give a diagram: the body itself when it names no container, of which no more than four mebibytes are read |
| MermaidCache.ContainerRenamed | internal/content/mermaid_http.go:86-88 | the id `container`, and a reference to it, become `mermaid-` and the first twelve digits of the source's checksum; the text around them stays |
| MermaidCache.ReplaceAllFirst | internal/content/mermaid_http.go:87-88 | replacing everything replaces the first occurrence and goes on behind it |
| MermaidCache.UninterruptedCall | internal/content/mermaid_http.go:54-94 | the steps of a call split at its lock regions, when not interrupted, do what the contract of `RenderSVG` says of a hit, a success and a failure |
| MermaidCache.AgreementIffHarmless | internal/content/mermaid_http.go:54-94 | under every interleaving of calls for a set of sources each answer equals the uncached one, exactly when sources of the set with equal checksums render alike |
| MermaidCache.AnswersAreFinal | internal/content/mermaid_http.go:54-94 | a call is answered once: its answer stays whatever other calls do later |
| MermaidCache.AnswersComeFromRenders | internal/content/mermaid_http.go:90-93 | everything in the cache was rendered for a source asked about; no failure is ever cached |
| MermaidCache.AnswersAreScoped | internal/content/mermaid_http.go:83-93 | no answer in any run still names the container |
| Paths.JoinSegments | cmd/sync/sync.go:122 | joining plain names puts slashes between them and does nothing else |
| Paths.ParentDropped | cmd/sync/sync.go:187 | in a joined path a name followed by `..` drops out, and so does an empty element |
| Paths.LeadingParents | cmd/sync/sync.go:187 | `..` at the start stays in a relative path and drops out of a rooted one |
| Paths.LeadingEmpty | cmd/sync/sync.go:187 | empty elements at the start of a joined path drop out, and when nothing is left there is no path |
| Paths.BaseCases | cmd/sync/sync.go:134 | slashes at the end of a path make no difference to its base; the empty path and the root |
| Paths.RootedPath | cmd/sync/sync.go:122 | a rooted path of plain names is cleaned to itself |
| SyncFiles.FirstHeading | cmd/sync/sync.go:208-215 | the loop returns the text of the first `# ` line, or nothing |
| SyncFiles.HeadingIs | cmd/sync/sync.go:206-215 | that is the trimmed text after `# ` on the first line that has it, and it is empty only when no line has it |
| SyncFiles.NumberedPageSlug | cmd/sync/sync.go:54-135 | a numbered page's slug is the slug of its file name without directory, number and extension |
| SyncFiles.PageIsNamed | cmd/sync/sync.go:135-150 | a collected page has a slug-shaped slug and a title that is never empty |
| PageFiles.PageTitle | cmd/sync/sync.go:138-144 | for every page: the title is the front matter's when that is not empty, whatever the body; else the text of the body's first heading; else the slug |
| PageFiles.PrintedTitle | cmd/sync/sync.go:130-150 | the page of a printed block of pairs and a body has the value of the last `title` pair as its title when that is not empty; else the text of the first heading line of the body; else its slug |
| PageFiles.DocOfIff | cmd/sync/sync.go:127 | a file is a page of a project exactly when the project has a docs directory, the file is in it, and its name ends in `.md` |
| PageFiles.PagesOfFile | cmd/sync/sync.go:126-152 | a file gives one page for each project it belongs to, in order, and is in error exactly when it belongs to one and its front matter or its slug is bad |
| PageFiles.WithoutNumberIs | cmd/sync/sync.go:54 | digits and a hyphen or underscore at the start of a name are dropped, and every other name stays as it is |
| PageFiles.PlainPageSlug | cmd/sync/sync.go:134 | the slug of a page without a number is that of its name |
| PageFiles.SnippetsOfFile | cmd/sync/sync.go:110-114 | exactly the files with the extension of the language are extracted from |
| PageFiles.Languages | cmd/sync/sync.go:43-52 | the four languages with their comment token and their extensions |
| SyncFiles.CollectPages | cmd/sync/sync.go:127-152 | the project loop of the callback adds the file's page for each project it belongs to, or fails |
| SyncFiles.TopicsAreTopics | cmd/sync/markers.go:16 | every extracted topic has the shape the markers demand |
| SyncRun.VisitFile | cmd/sync/sync.go:109-154 | the callback registers the file's snippets and adds its pages, or fails |
| SyncRun.WalkFiles | cmd/sync/sync.go:109-157 | the walk gives the snippets and pages of all files, and fails exactly when a file is in error or a topic is already provided |
| SyncRun.ListProject | cmd/sync/sync.go:177-194 | listing a project fails exactly when two of its docs share a slug; otherwise it lists them in order and adds their bodies |
| SyncRun.Run | cmd/sync/sync.go:56-204 | the run over all sources computes the specified manifest and files, and fails on no sources |
| RunOutcome.CollectedIff | cmd/sync/sync.go:109-157 | an archive gives the snippets and pages of its files, and is in error exactly when one of its files is |
| RunOutcome.RunSucceedsIff | cmd/sync/sync.go:56-204 | a run succeeds exactly when each source is in order on its own (its files read, its topics, its projects and the slugs of each project all different) and no two sources share a topic in the same language or a project |
| ArchiveOrder.RegisterAllIs | cmd/sync/sync.go:115-123 | registering snippets succeeds exactly when no topic repeats another or one provided before, and then adds exactly their variants and files |
| ArchiveOrder.SnippetFileInjective | cmd/sync/sync.go:122 | a snippet's file determines its topic and language |
| ArchiveOrder.VariantKeyInjective | cmd/sync/sync.go:116 | a variant's key determines its topic and its language |
| ArchiveOrder.PageKeyUnique | cmd/sync/sync.go:161-169 | the navigation order's key identifies a page, so the sort has one result |
| ArchiveOrder.SourceOrderIrrelevant | cmd/sync/sync.go:109-197 | one source's archive may be read in any order |
| ArchiveOrder.RunOrderIrrelevant | cmd/sync/sync.go:56-204 | for archives of distinctly named files read in any order the run succeeds or fails alike, with equal manifest, snippet files and docs files |
| Order.SortedUnique | cmd/sync/sync.go:159-169 | without equivalent elements there is one sorted arrangement |
| Order.StrLeIs | cmd/sync/sync.go:159-169 | the order of strings: a prefix comes first, and otherwise the first different character decides |
| Order.CompactIs | cmd/sync/sync.go:160 | compacting leaves no two equal neighbours and drops no element |
| Conservation.TopicsListed | cmd/sync/sync.go:159-160 | topics come out strictly increasing, and compacting removes none |
| Conservation.RunListsEverything | cmd/sync/sync.go:88-197 | the manifest lists every source in order with exactly its archive's topics and, for each project, exactly its pages, each once, in strictly increasing source order |
| OutputFiles.SnippetsConserved | cmd/sync/sync.go:115-123 | the snippet files are those of the listed topics and as many, and each holds the code extracted for its topic |
| DocFiles.DocsListed | cmd/sync/sync.go:187-194 | the docs files are exactly the `File` entries of the manifest |
| DocFiles.DocsConserved | cmd/sync/sync.go:171-195 | there are never more docs files than listed pages, and as many exactly when no two projects with the same cleaned directory have a page with the same slug |
| DocFiles.RunIsWrites | cmd/sync/sync.go:171-195 | the docs files are the bodies of all collected pages written one after another, the manifest lists those pages in that order, and no project has two with the same slug |
| DocFiles.DocFileIs | cmd/sync/sync.go:187 | the docs file of a page of a plainly named project is `docs/`, the project, a slash, the slug and `.md` |
| DocFiles.DocFileSameIff | cmd/sync/sync.go:187 | two pages share a docs file exactly when their slugs are equal and their projects' directories are, once cleaned |
| DocFiles.OwnFileHoldsBody | cmd/sync/sync.go:187-188 | a page that shares its file with no other project's page has its body there |
| DocFiles.DottedProjectLosesPage | cmd/sync/sync.go:187-188 | a run over an archive with a page of the projects `a` and `./a` under the same slug succeeds and lists both, but writes one file, and the first body is lost |
| DocFiles.DottedProjectCollides | cmd/sync/sync.go:187-188 | a project slug with a leading `./` shares its docs directory and files with the slug without it |
| DocStore.Store.UpsertDoc | internal/store/documents.go:150-170 | exactly for a known project one docs page's row is written: a new published one by `sync`, or the old one with its title, texts and update time replaced; otherwise nothing changes |
| DocStore.Store.PruneDocs | internal/store/documents.go:175-186 | exactly the projects' docs rows whose entry is not kept are deleted, with their category links, and their number is returned; a null array deletes nothing |
| DocStore.Store.GetArticle | internal/store/documents.go:96-114 | finds the one published latest article with the slug, with its category slugs, each once, and their names, both in the order of the names, or says that there is none or more than one |
| DocStore.Store.GetDoc | internal/store/documents.go:131-147 | finds the one latest docs row of the project with the slug, or says that there is none or more than one |
| DocStore.Store.GetArticleByID | internal/store/admin.go:51-68 | returns exactly the article with the id and its category slugs, each once and in order |
| DocStore.Store.CreateArticle | internal/store/admin.go:72-82 | inserts an empty unpublished row with the slug, title and author under the next id, or fails exactly when an article has the slug, and changes nothing |
| DocStore.Store.UpdateArticle | internal/store/admin.go:87-125 | the transaction saves the fields and resets the categories, or rolls back |
| DocStore.Store.SetPublished | internal/store/admin.go:128-140 | succeeds exactly for an article; its publish time is then the one given, or none when none is given, its update time is now, and nothing else has changed |
| DocStore.SaveResets | internal/store/admin.go:94-124 | a save succeeds exactly when the article exists and no tag repeats; its categories are then exactly the tags; other articles' tags and existing categories are unchanged |
| DocStore.TagNamesAre | internal/store/admin.go:110-116 | a new category is named by its slug with spaces for hyphens, and one that exists keeps its name |
| DocStore.PruneKeepsTags | internal/store/documents.go:175-186 | a prune leaves the documents that remain their categories |
| DocSync.SyncDB | cmd/codepuke/syncdb.go:52-84 | the loop upserts the pages in manifest order, stops at the first failure, and prunes only after all succeeded; a null array, which only a manifest without pages makes, prunes nothing; a sync that succeeds ends in `AfterSync`, the state the convergence theorems are about |
| DocSync.UpsertsAre | cmd/codepuke/syncdb.go:58-76 | upserts that succeed leave old rows in place, give every page a row with the last page of its key, publish new rows, and touch nothing else |
| Convergence.EntryUnambiguousIff | internal/store/documents.go:175-186 | a keep entry stands for one page exactly when neither part has a slash |
| Convergence.OnlyListedExactly | cmd/codepuke/syncdb.go:58-83 | for each store and manifest that syncs, the sync leaves only rows of listed pages exactly when the store has no row that is not listed and that the sync keeps |
| Convergence.OnlyListedIff | cmd/codepuke/syncdb.go:58-83 | for given projects and a manifest that syncs, every store ends with rows of listed pages only exactly when each kept entry that one of the projects can make is that of a listed page of the project, and the prune runs or there are no projects |
| Convergence.SlashKeepsStaleRow | internal/store/documents.go:175-186 | a store and a manifest with a slash in a slug: the sync succeeds and a page that is not listed stays |
| Convergence.NullArrayKeepsStaleRow | cmd/codepuke/syncdb.go:58-83 | a manifest without pages whose keep list is a null array: the sync changes nothing, and a page that is not listed stays and is served |
| Convergence.EmptyArrayPrunesAll | cmd/codepuke/syncdb.go:58-83 | sent as an empty array, the keep list of a manifest without pages deletes every docs row of every project, and no other row |
| Convergence.SyncsIff | cmd/codepuke/syncdb.go:58-76 | a sync reaches its prune exactly when every page can be read and rendered and its project is known |
| Convergence.SyncConverges | cmd/codepuke/syncdb.go:58-83 | after a successful sync of any manifest every page has exactly one row holding the last page of its key, and all rows outside the projects' docs are untouched |
| Convergence.SecondSyncChangesNothing | cmd/codepuke/syncdb.go:58-83 | syncing any manifest again succeeds, prunes nothing and changes only update times |
| Convergence.FailedSyncDeletesNothing | cmd/codepuke/syncdb.go:62-79 | a sync that fails has upserted exactly the pages before the first that cannot be synced, deleted no row, and names what is wrong with that page: its file is missing, it does not render, or its project is unknown |
| Convergence.SyncedDocsServed | internal/store/documents.go:131-147 | after a sync a reader finds every listed page, with its last rendering; when the prune runs he finds nothing under a project and slug that make no kept entry, and when it does not he finds what was there before |
| Deployment.ProjectsDeclaredOnce | cmd/sync/sync.go:171-175 | no two places of the manifest, neither in two sources nor in one, list the same project |
| Deployment.SyncFailsOnlyOn | cmd/codepuke/syncdb.go:58-76 | the docs sync of any run's output never misses a file, and fails exactly when a page does not render or its project is not in the store |
| Deployment.RunLeavesListed | cmd/codepuke/syncdb.go:58-83 | the docs sync of any run's output leaves only listed docs pages exactly when its prune runs or there are none, in every store whose docs slugs have no slash, and in any store when no project slug of the configuration has one |
| Deployment.ArchiveReachesReaders | cmd/codepuke/syncdb.go:52-84 | after both syncs, looking up a collected page's project and slug finds the one row with its title, body and rendering exactly when its docs file holds its body, and so whenever no other project has a page with the same file |
| Deployment.SiteServesArchives | cmd/codepuke/syncdb.go:52-84 | after any run of requests and syncs of slash-free pages from an empty store, syncing a run's output serves each collected page whose docs file holds its body and leaves only listed docs pages, whatever the projects are called |
| Deployment.RunSyncsSlashFree | cmd/sync/sync.go:135-139 | the upserts of the sync of any run's output are of slash-free pages |
| Tags.ParseTags | internal/web/admin.go:216-228 | the loop computes the distinct non-empty slugs of the comma-separated parts |
| Tags.TagsAreSlugs | internal/web/admin.go:216-228 | the tags are slugs, none repeats, they are all the non-empty slugs of the parts, in order of first occurrence |
| Tags.TagsRoundTrip | internal/web/admin.go:202 | parsing the field the editor shows gives back the same tags |
| Tags.SaveWithField | internal/store/admin.go:104-122 | a save from the editor never violates the join table's key, and the article then has exactly the slugs named in the field |
| Admin.AdminCreate | internal/web/admin.go:73-96 | creates a draft under the first free of s, s-2 to s-5; does nothing for a title without a slug; fails when all five are taken |
| Admin.CreatedSlugIsSlug | internal/web/admin.go:74-84 | every slug tried for a new article is slug-shaped |
| Admin.CandidatesAre | internal/web/admin.go:80-84 | the slugs tried are s, s-2, s-3, s-4 and s-5 |
| Admin.AdminEditor | internal/web/admin.go:98-110 | the editor of an article shows the article's row and all its tags, and there is none for anything else |
| Admin.AdminSave | internal/web/admin.go:116-181 | preview, unknown actions, missing articles and failed renders change nothing; save, publish and unpublish do exactly their statements, and afterwards the publish time is as before, the one of the form's date or of the request, or none |
| Admin.SaveFormSaves | internal/web/admin.go:149-158 | a save succeeds exactly when the article is there and its text renders, and writes the form's fields, that rendering and the field's tags to that article only |
| Admin.ActionPublishes | internal/web/admin.go:149-173 | after a publish the publish time is noon of the form's date, or the time of the request when the date does not parse; after an unpublish there is none; after a save it is as before |
| ArticleRuns.RunKeeps | internal/web/admin.go:73-181 | over every run in which requests and docs syncs interleave between store operations, stored HTML is the rendering of the stored markdown unless the row is still an empty draft, docs rows are unversioned and latest, no article is lost, and no slug changes |
| ArticleRuns.ReadersSeePublished | internal/store/documents.go:96-114 | after every run article slugs are unique, a slug finds exactly the article with that slug and a publish time, and what is found is the rendering of its markdown |
| ArticleRuns.EmptyStoreGood | internal/store/documents.go:96-114 | an empty store satisfies the invariant of the runs |
| ArticleRuns.RunsFromEmpty | internal/store/documents.go:96-114 | every run from an empty store keeps the invariant, and a slug finds at most one article, the published one with that slug, with the rendering of its markdown |
| ArticleRuns.EditorKeepsTags | internal/web/admin.go:196-213 | after every run, a save with the tags field as shown, whatever else the form holds, leaves the tags of every article as they were |
| ArticleRuns.RunKeepsSlashFree | internal/store/documents.go:150-170 | a store without a slash in a docs slug never gets one from a run whose syncs upsert slash-free pages |
| ArticleRuns.ActionIsRun | internal/web/admin.go:138-181 | a press of a button that succeeds undisturbed is the run of its store operations, a publish being a save and then setting the time; one that fails changes nothing |
| ArticleRuns.ButtonsPublish | internal/web/admin.go:149-173 | after every run, a press of Publish that succeeds makes readers find exactly that article under its slug, one of Unpublish makes them find nothing, and one of Save leaves what they find |
| ArticleRuns.CreateIsRun | internal/web/admin.go:73-96 | creating an article undisturbed is the run of the attempts up to the first free slug, and five attempts at taken slugs change nothing |
| ArticleRuns.CreatesAreCandidates | internal/web/admin.go:80-94 | a creation changes nothing or makes a draft under one of s, s-2, s-3, s-4 and s-5 |
| ArticleRuns.SyncIsRun | cmd/codepuke/syncdb.go:58-79 | a docs sync undisturbed is the run of its upserts and, when they succeed, of its prune, if it runs |

## Left out

- Text is a sequence of code points; invalid UTF-8 is not modelled, and the four-mebibyte limit on the sidecar's answer counts characters.
- Lower-casing is any map of single characters that leaves lower-case letters, digits and hyphens alone; Unicode's case table is one of them.
- Tags.TagsRoundTrip: asks that lower-casing does not turn a space into a letter or digit, because the case table is left open; so does ArticleRuns.EditorKeepsTags.
- goldmark, chroma and bluemonday: a document is a tree of headings and blocks, or an array of nodes for the diagram fences, and rendering is any function that may fail.
- Mermaid.RenderMermaid: the fences are the mermaid nodes of a flat array in document order; where a node hangs in the tree is not modelled.
- Anchors.DerivedIdsAreNew: says nothing of an explicit id that repeats an earlier id, because the code does not check explicit ids.
- Outline.ExtractSections: unescapes the five entities that the printer writes, not the whole HTML table.
- SHA-256 is any function to 32 bytes; nothing is assumed about collisions.
- SyncRun.Run: an error is a failure without its text, because which of several errors comes first depends on the archive's order.
- Resolving commits, reading archives and writing the output tree (`cmd/sync/gitrepo.go`, `writeOutput`); the run is given each archive's files and returns the files to write.
- Sorting is an insertion sort on the same order; with equivalent elements Go's sort may arrange them otherwise, but then the run fails anyway.
- DocSync.SyncDB: visits the manifest's pages as one list in the order of the three nested loops. Whether a nil slice reaches the database as a null or an empty array is a parameter, because it is the driver's choice.
- DocStore: statements run one at a time and fail only for the reasons shown; connection errors are not modelled. New rows get consecutive ids; the gaps a real sequence leaves are not modelled.
- The database's order of strings is any total order that may hold different strings equal; no collation is modelled.
- Times are integers given by the caller: the clock, the zone and date formats are not modelled.
- Sessions, routing, list pages, the preview that stores nothing (`adminPreview`), RSS, configuration, templates and styles.
