/**
The sync run does not depend on the order of the files in an archive.
*/
module ArchiveOrder {
  import opened Text
  import opened Slug
  import opened Paths
  import opened Order
  import opened SyncFiles
  import opened SyncRun
  import opened Entries
  import Markers

  ghost predicate NamesDistinct(files: seq<File>) {
    forall f, g :: f in files && g in files && f.name == g.name ==> f == g
  }

  // ---------- The walk under permutation ----------

  lemma {:induction false} ThenIsMonoid(a: Option<Parts>, b: Option<Parts>, c: Option<Parts>)
    ensures Then(Then(a, b), c) == Then(a, Then(b, c))
    ensures Then(a, NO_PARTS) == a && Then(NO_PARTS, a) == a
  {
    if a.Some? {
      assert a.value.snippets + [] == a.value.snippets && a.value.pages + [] == a.value.pages;
      assert [] + a.value.snippets == a.value.snippets && [] + a.value.pages == a.value.pages;
      if b.Some? && c.Some? {
        assert (a.value.snippets + b.value.snippets) + c.value.snippets ==
          a.value.snippets + (b.value.snippets + c.value.snippets);
        assert (a.value.pages + b.value.pages) + c.value.pages == a.value.pages + (b.value.pages + c.value.pages);
      }
    }
  }

  lemma {:induction false} GatherAppend(a: seq<Option<Parts>>, b: seq<Option<Parts>>)
    ensures Gather(a + b) == Then(Gather(a), Gather(b))
    decreases |b|
  {
    var pa := Gather(a);
    if b == [] {
      assert a + b == a;
      ThenIsMonoid(pa, pa, pa);
    } else {
      var before, p := b[..|b| - 1], b[|b| - 1];
      assert (a + b)[..|a + b| - 1] == a + before && (a + b)[|a + b| - 1] == p;
      GatherAppend(a, before);
      ThenIsMonoid(pa, Gather(before), p);
    }
  }

  ghost predicate SameParts(a: Option<Parts>, b: Option<Parts>) {
    && (a == None <==> b == None)
    && (a.Some? ==>
        multiset(a.value.snippets) == multiset(b.value.snippets) && multiset(a.value.pages) == multiset(b.value.pages))
  }

  // Moving one file's parts to the end permutes the gathered snippets and pages.
  lemma {:induction false} GatherMove(a: seq<Option<Parts>>, p: Option<Parts>, b: seq<Option<Parts>>)
    ensures SameParts(Gather(a + [p] + b), Gather(a + b + [p]))
  {
    hide Gather;
    GatherAppend(a + [p], b);
    GatherAppend(a, [p]);
    GatherAppend(a + b, [p]);
    GatherAppend(a, b);
  }

  lemma {:induction false} GatherSnoc(a: seq<Option<Parts>>, b: seq<Option<Parts>>, p: Option<Parts>)
    requires SameParts(Gather(a), Gather(b))
    ensures SameParts(Gather(a + [p]), Gather(b + [p]))
  {
    GatherAppend(a, [p]);
    GatherAppend(b, [p]);
  }

  lemma {:induction false} GatherPermuted(a: seq<Option<Parts>>, b: seq<Option<Parts>>)
    requires multiset(a) == multiset(b)
    ensures SameParts(Gather(a), Gather(b))
  {
    SameLength(a, b);
    if a != [] {
      var n := |a| - 1;
      var j := SameElement(a, b, n);
      var rest := b[..j] + b[j + 1..];
      WithoutOne(b, j);
      WithoutOne(a, n);
      assert a[..n] + a[n + 1..] == a[..n] && a == a[..n] + [a[n]];
      hide Gather, SameParts;
      GatherPermuted(a[..n], rest);
      GatherSnoc(a[..n], rest, a[n]);
      GatherMove(b[..j], a[n], b[j + 1..]);
      SamePartsJoin(Gather(a), Gather(rest + [a[n]]), Gather(b));
    } else {
      assert b == [];
    }
  }

  lemma {:induction false} SamePartsJoin(x: Option<Parts>, y: Option<Parts>, z: Option<Parts>)
    requires SameParts(x, y) && SameParts(z, y)
    ensures SameParts(x, z)
  {
  }

  // Files in another order have the same parts in another order.
  lemma {:induction false} CollectedPermuted(lower: Lowering, spec: SourceSpec, info: LangInfo, files: seq<File>,
                                             files': seq<File>)
    requires multiset(files) == multiset(files')
    ensures SameParts(Collected(lower, spec, info, files), Collected(lower, spec, info, files'))
  {
    hide PartsOf, SameParts;
    ImagesPermuted(files, files', PartsOfAll(lower, spec, info, files), PartsOfAll(lower, spec, info, files'));
    GatherPermuted(PartsOfAll(lower, spec, info, files), PartsOfAll(lower, spec, info, files'));
  }

  // ---------- Registering under permutation ----------

  ghost predicate TopicsFresh(variants: map<string, string>, snippets: seq<Markers.Snippet>, lang: string) {
    && (forall sn <- snippets :: VariantKey(sn.topic, lang) !in variants)
    && Distinct(Topics(snippets))
  }

  function Topics(snippets: seq<Markers.Snippet>): (r: seq<string>)
    ensures |r| == |snippets| && forall i :: 0 <= i < |r| ==> r[i] == snippets[i].topic
  {
    seq(|snippets|, i requires 0 <= i < |snippets| => snippets[i].topic)
  }

  function VariantEntries(snippets: seq<Markers.Snippet>, spec: SourceSpec): (r: seq<Entry>)
  {
    seq(|snippets|, i requires 0 <= i < |snippets| => (VariantKey(snippets[i].topic, spec.lang), spec.name))
  }

  function CodeEntries(snippets: seq<Markers.Snippet>, lang: string, outExt: string): (r: seq<Entry>)
    ensures |r| == |snippets| && forall i :: 0 <= i < |r| ==>
      r[i] == (SnippetFile(snippets[i].topic, lang, outExt), snippets[i].code)
  {
    seq(|snippets|, i requires 0 <= i < |snippets| => (SnippetFile(snippets[i].topic, lang, outExt), snippets[i].code))
  }

  ghost predicate TopicsShaped(snippets: seq<Markers.Snippet>) {
    forall sn <- snippets :: Markers.IsTopic(sn.topic)
  }

  // reg' is reg with these snippets: their variants from this source, and their code under their paths.
  ghost predicate Registered(reg: Reg, reg': Reg, snippets: seq<Markers.Snippet>, spec: SourceSpec, info: LangInfo) {
    && reg'.topics == reg.topics + Topics(snippets)
    && Filled(reg.variants, reg'.variants, VariantEntries(snippets, spec))
    && Filled(reg.files, reg'.files, CodeEntries(snippets, spec.lang, info.outExt))
  }

  // A variant's key determines its topic and its language.
  lemma {:induction false} VariantKeyInjective(topic: string, lang: string, topic': string, lang': string)
    requires '/' !in topic && '/' !in topic' && VariantKey(topic, lang) == VariantKey(topic', lang')
    ensures topic == topic' && lang == lang'
  {
    assert VariantKey(topic, lang) == topic + ['/'] + lang && VariantKey(topic', lang') == topic' + ['/'] + lang';
    var k := VariantKey(topic, lang);
    assert k[|topic|] == '/' && k[|topic'|] == '/';
    assert forall i :: 0 <= i < |topic| ==> k[i] == topic[i];
    assert forall i :: 0 <= i < |topic'| ==> k[i] == topic'[i];
    assert |topic| == |topic'|;
    assert topic == k[..|topic|] == topic' && lang == k[|topic| + 1..] == lang';
  }

  predicate IsLangInfo(lang: string, info: LangInfo) {
    IsLang(lang) && InfoOf(lang) == info
  }

  lemma {:induction false} TopicIsSegment(topic: string)
    requires Markers.IsTopic(topic)
    ensures IsSegment(topic)
  {
    assert topic[0] in topic;
    assert forall c <- topic :: Markers.IsTopicChar(c);
  }

  lemma {:induction false} LangFileIsSegment(lang: string, info: LangInfo)
    requires IsLangInfo(lang, info)
    ensures IsSegment(lang + info.outExt) && |lang| >= 2
  {
  }

  lemma {:induction false} SnippetFileIs(topic: string, lang: string, info: LangInfo)
    requires Markers.IsTopic(topic) && IsLangInfo(lang, info)
    ensures SnippetFile(topic, lang, info.outExt) == "examples" + "/" + topic + "/" + (lang + info.outExt)
  {
    TopicIsSegment(topic);
    LangFileIsSegment(lang, info);
    JoinSegments("examples", topic, lang + info.outExt);
  }

  // A snippet's file determines its topic and language.
  lemma {:induction false} SnippetFileInjective(topic: string, lang: string, info: LangInfo, topic': string,
                                                lang': string, info': LangInfo)
    requires Markers.IsTopic(topic) && IsLangInfo(lang, info) && Markers.IsTopic(topic') && IsLangInfo(lang', info')
    requires SnippetFile(topic, lang, info.outExt) == SnippetFile(topic', lang', info'.outExt)
    ensures topic == topic' && lang == lang'
  {
    SnippetFileIs(topic, lang, info);
    SnippetFileIs(topic', lang', info');
    TopicIsSegment(topic);
    TopicIsSegment(topic');
    LangFileIsSegment(lang, info);
    LangFileIsSegment(lang', info');
    SegmentsUnique("examples", topic, lang + info.outExt, topic', lang' + info'.outExt);
    LangFileInjective(lang, info, lang', info');
  }

  lemma {:induction false} LangFileInjective(lang: string, info: LangInfo, lang': string, info': LangInfo)
    requires IsLangInfo(lang, info) && IsLangInfo(lang', info') && lang + info.outExt == lang' + info'.outExt
    ensures lang == lang'
  {
    assert lang == "go" || lang == "typescript" || lang == "python" || lang == "csharp";
    assert lang' == "go" || lang' == "typescript" || lang' == "python" || lang' == "csharp";
    assert lang[0] == (lang + info.outExt)[0] == lang'[0];
  }

  lemma {:induction false} OtherTopic(topic: string, topic': string, lang: string, info: LangInfo)
    requires Markers.IsTopic(topic) && Markers.IsTopic(topic') && IsLangInfo(lang, info) && topic != topic'
    ensures VariantKey(topic, lang) != VariantKey(topic', lang)
    ensures SnippetFile(topic, lang, info.outExt) != SnippetFile(topic', lang, info.outExt)
  {
    if VariantKey(topic, lang) == VariantKey(topic', lang) {
      TopicIsSegment(topic);
      TopicIsSegment(topic');
      VariantKeyInjective(topic, lang, topic', lang);
    }
    if SnippetFile(topic, lang, info.outExt) == SnippetFile(topic', lang, info.outExt) {
      SnippetFileInjective(topic, lang, info, topic', lang, info);
    }
  }

  function ItemVariants(items: seq<Item>, source: string): (r: seq<Entry>)
  {
    seq(|items|, i requires 0 <= i < |items| => (items[i].key, source))
  }

  function ItemCode(items: seq<Item>): (r: seq<Entry>)
  {
    seq(|items|, i requires 0 <= i < |items| => (items[i].file, items[i].code))
  }

  function ItemTopics(items: seq<Item>): (r: seq<string>)
  {
    seq(|items|, i requires 0 <= i < |items| => items[i].topic)
  }

  ghost predicate KeysFresh(variants: map<string, string>, items: seq<Item>) {
    forall it <- items :: it.key !in variants
  }

  // Registering items succeeds exactly when every key is new, and then fills the three maps and lists with them.
  lemma {:induction false} RegisterItemsIs(r: Reg, items: seq<Item>, source: string)
    ensures RegisterItems(r, items, source).Some? <==>
      KeysFresh(r.variants, items) && KeysDistinct(ItemVariants(items, source))
    ensures RegisterItems(r, items, source).Some? ==>
      RegisterItems(r, items, source).value ==
        Reg(Fill(r.variants, ItemVariants(items, source)), Fill(r.files, ItemCode(items)), r.topics + ItemTopics(items))
    decreases |items|
  {
    hide KeysFresh, KeysDistinct;
    if items == [] {
      assert KeysFresh(r.variants, items) && KeysDistinct(ItemVariants(items, source)) by {
        NoKeys(r.variants, source);
      }
      assert r.topics + ItemTopics(items) == r.topics;
    } else {
      var before, it := items[..|items| - 1], items[|items| - 1];
      assert items == before + [it];
      RegisterItemsIs(r, before, source);
      ItemsSnoc(r, before, it, source);
    }
  }

  lemma {:induction false} NoKeys(variants: map<string, string>, source: string)
    ensures KeysFresh(variants, []) && KeysDistinct(ItemVariants([], source))
  {
  }

  // One more item
  lemma {:induction false} ItemsSnoc(r: Reg, before: seq<Item>, it: Item, source: string)
    ensures var vs, cs, ts, items := ItemVariants(before, source), ItemCode(before), ItemTopics(before), before + [it];
      && Fill(r.variants, ItemVariants(items, source)) == Fill(r.variants, vs)[it.key := source]
      && Fill(r.files, ItemCode(items)) == Fill(r.files, cs)[it.file := it.code]
      && r.topics + ItemTopics(items) == r.topics + ts + [it.topic]
      && (KeysFresh(r.variants, items) && KeysDistinct(ItemVariants(items, source)) <==>
            KeysFresh(r.variants, before) && KeysDistinct(vs) && it.key !in Fill(r.variants, vs))
  {
    hide KeysFresh, KeysDistinct;
    var vs, cs, items := ItemVariants(before, source), ItemCode(before), before + [it];
    assert ItemVariants(items, source) == vs + [(it.key, source)] && ItemCode(items) == cs + [(it.file, it.code)];
    assert (vs + [(it.key, source)])[..|vs|] == vs && (cs + [(it.file, it.code)])[..|cs|] == cs;
    assert ItemTopics(items) == ItemTopics(before) + [it.topic];
    FillKeys(r.variants, vs);
    KeysDistinctSnoc(vs, (it.key, source));
    KeysFreshSnoc(r.variants, before, it);
  }

  lemma {:induction false} KeysFreshSnoc(variants: map<string, string>, before: seq<Item>, it: Item)
    ensures KeysFresh(variants, before + [it]) <==> KeysFresh(variants, before) && it.key !in variants
  {
    assert forall x :: x in before + [it] <==> x in before || x == it;
  }

  // Registering succeeds exactly when no topic repeats another or one provided before.
  lemma {:induction false} RegisterAllIs(reg: Reg, snippets: seq<Markers.Snippet>, spec: SourceSpec, info: LangInfo)
    requires TopicsShaped(snippets) && IsLangInfo(spec.lang, info)
    ensures RegisterAll(reg, snippets, spec, info).Some? <==> TopicsFresh(reg.variants, snippets, spec.lang)
    ensures RegisterAll(reg, snippets, spec, info).Some? ==>
      Registered(reg, RegisterAll(reg, snippets, spec, info).value, snippets, spec, info)
  {
    hide SnippetFile, VariantKey, IsLangInfo, Filled, Fill, RegisterItems;
    var items := Items(snippets, spec, info);
    RegisterItemsIs(reg, items, spec.name);
    assert ItemVariants(items, spec.name) == VariantEntries(snippets, spec);
    assert ItemCode(items) == CodeEntries(snippets, spec.lang, info.outExt);
    assert ItemTopics(items) == Topics(snippets);
    KeysFreshIff(reg.variants, snippets, spec, info);
    TopicsDistinctIff(snippets, spec, info);
    if RegisterAll(reg, snippets, spec, info).Some? {
      FillIs(reg.variants, VariantEntries(snippets, spec));
      FillIs(reg.files, CodeEntries(snippets, spec.lang, info.outExt));
    }
  }

  lemma {:induction false} KeysFreshIff(variants: map<string, string>, snippets: seq<Markers.Snippet>, spec: SourceSpec,
                                        info: LangInfo)
    ensures KeysFresh(variants, Items(snippets, spec, info)) <==>
      forall sn <- snippets :: VariantKey(sn.topic, spec.lang) !in variants
  {
    hide SnippetFile, VariantKey;
    var items := Items(snippets, spec, info);
    forall i | 0 <= i < |snippets|
      ensures items[i] in items && snippets[i] in snippets && items[i].key == VariantKey(snippets[i].topic, spec.lang)
    {
    }
  }

  // Distinct topics have distinct variants and files; equal topics have equal ones.
  lemma {:induction false} TopicsDistinctIff(snippets: seq<Markers.Snippet>, spec: SourceSpec, info: LangInfo)
    requires TopicsShaped(snippets) && IsLangInfo(spec.lang, info)
    ensures KeysDistinct(VariantEntries(snippets, spec)) <==> Distinct(Topics(snippets))
    ensures Distinct(Topics(snippets)) ==> KeysDistinct(CodeEntries(snippets, spec.lang, info.outExt))
  {
    hide SnippetFile, VariantKey, IsLangInfo;
    var vs, cs := VariantEntries(snippets, spec), CodeEntries(snippets, spec.lang, info.outExt);
    forall i, j | 0 <= i < j < |snippets|
      ensures vs[i].0 == vs[j].0 <==> Topics(snippets)[i] == Topics(snippets)[j]
      ensures cs[i].0 == cs[j].0 ==> Topics(snippets)[i] == Topics(snippets)[j]
    {
      assert snippets[i] in snippets && snippets[j] in snippets;
      if snippets[i].topic != snippets[j].topic {
        OtherTopic(snippets[i].topic, snippets[j].topic, spec.lang, info);
      }
    }
  }

  lemma {:induction false} TopicsPermuted(a: seq<Markers.Snippet>, b: seq<Markers.Snippet>)
    requires multiset(a) == multiset(b)
    ensures multiset(Topics(a)) == multiset(Topics(b))
  {
    ImagesPermuted(a, b, Topics(a), Topics(b));
  }

  ghost predicate SameReg(a: Option<Reg>, b: Option<Reg>) {
    && (a == None <==> b == None)
    && (a.Some? ==> a.value.variants == b.value.variants && a.value.files == b.value.files &&
                    multiset(a.value.topics) == multiset(b.value.topics))
  }

  lemma {:induction false} FreshPermuted(variants: map<string, string>, a: seq<Markers.Snippet>,
                                         b: seq<Markers.Snippet>, lang: string)
    requires multiset(a) == multiset(b)
    ensures TopicsFresh(variants, a, lang) <==> TopicsFresh(variants, b, lang)
  {
    TopicsPermuted(a, b);
    DistinctPermuted(Topics(a), Topics(b));
    assert forall sn :: sn in a <==> sn in multiset(a);
    assert forall sn :: sn in b <==> sn in multiset(b);
  }

  lemma {:induction false} EntriesSame(a: seq<Markers.Snippet>, b: seq<Markers.Snippet>, spec: SourceSpec,
                                       info: LangInfo)
    requires forall sn :: sn in a ==> sn in b
    ensures forall e :: e in VariantEntries(a, spec) ==> e in VariantEntries(b, spec)
    ensures forall e :: e in CodeEntries(a, spec.lang, info.outExt) ==> e in CodeEntries(b, spec.lang, info.outExt)
  {
    forall i | 0 <= i < |a|
      ensures VariantEntries(a, spec)[i] in VariantEntries(b, spec)
      ensures CodeEntries(a, spec.lang, info.outExt)[i] in CodeEntries(b, spec.lang, info.outExt)
    {
      assert a[i] in b;
      var j :| 0 <= j < |b| && b[j] == a[i];
      assert VariantEntries(b, spec)[j] == VariantEntries(a, spec)[i];
      assert CodeEntries(b, spec.lang, info.outExt)[j] == CodeEntries(a, spec.lang, info.outExt)[i];
    }
  }

  lemma {:induction false} RegisteredSame(reg: Reg, ra: Reg, rb: Reg, a: seq<Markers.Snippet>, b: seq<Markers.Snippet>,
                                          spec: SourceSpec, info: LangInfo)
    requires forall sn :: sn in a <==> sn in b
    requires Registered(reg, ra, a, spec, info) && Registered(reg, rb, b, spec, info)
    ensures ra.variants == rb.variants && ra.files == rb.files
  {
    EntriesSame(a, b, spec, info);
    EntriesSame(b, a, spec, info);
    FilledSame(reg.variants, ra.variants, rb.variants, VariantEntries(a, spec), VariantEntries(b, spec));
    FilledSame(reg.files, ra.files, rb.files, CodeEntries(a, spec.lang, info.outExt),
               CodeEntries(b, spec.lang, info.outExt));
  }

  lemma {:induction false} RegisterPermuted(reg: Reg, a: seq<Markers.Snippet>, b: seq<Markers.Snippet>,
                                            spec: SourceSpec, info: LangInfo)
    requires multiset(a) == multiset(b) && TopicsShaped(a) && IsLangInfo(spec.lang, info)
    ensures SameReg(RegisterAll(reg, a, spec, info), RegisterAll(reg, b, spec, info))
  {
    assert forall sn :: sn in a <==> sn in multiset(a);
    assert forall sn :: sn in b <==> sn in multiset(b);
    RegisterAllIs(reg, a, spec, info);
    RegisterAllIs(reg, b, spec, info);
    FreshPermuted(reg.variants, a, b, spec.lang);
    TopicsPermuted(a, b);
    var ra, rb := RegisterAll(reg, a, spec, info), RegisterAll(reg, b, spec, info);
    if ra.Some? {
      RegisteredSame(reg, ra.value, rb.value, a, b, spec, info);
    }
  }

  // ---------- What the walk collects ----------

  // A file's parts are among what is collected, and everything collected is from some file.
  lemma {:induction false} GatherFrom(parts: seq<Option<Parts>>)
    requires Gather(parts).Some?
    ensures forall p <- parts :: p.Some?
    ensures forall sn <- Gather(parts).value.snippets :: exists i :: 0 <= i < |parts| && sn in parts[i].value.snippets
    ensures forall page <- Gather(parts).value.pages :: exists i :: 0 <= i < |parts| && page in parts[i].value.pages
  {
    if parts != [] {
      var n := |parts| - 1;
      GatherFrom(parts[..n]);
      assert parts == parts[..n] + [parts[n]];
      forall sn | sn in Gather(parts).value.snippets
        ensures exists i :: 0 <= i < |parts| && sn in parts[i].value.snippets
      {
        if sn in Gather(parts[..n]).value.snippets {
          var i :| 0 <= i < n && sn in parts[..n][i].value.snippets;
          assert sn in parts[i].value.snippets;
        } else {
          assert sn in parts[n].value.snippets;
        }
      }
      forall page | page in Gather(parts).value.pages
        ensures exists i :: 0 <= i < |parts| && page in parts[i].value.pages
      {
        if page in Gather(parts[..n]).value.pages {
          var i :| 0 <= i < n && page in parts[..n][i].value.pages;
          assert page in parts[i].value.pages;
        } else {
          assert page in parts[n].value.pages;
        }
      }
    }
  }

  lemma {:induction false} CollectedShaped(lower: Lowering, spec: SourceSpec, info: LangInfo, files: seq<File>)
    requires Collected(lower, spec, info, files).Some?
    ensures TopicsShaped(Collected(lower, spec, info, files).value.snippets)
  {
    hide Gather, FileSnippets, FilePages;
    var parts := PartsOfAll(lower, spec, info, files);
    GatherFrom(parts);
    forall sn | sn in Gather(parts).value.snippets
      ensures Markers.IsTopic(sn.topic)
    {
      var i :| 0 <= i < |parts| && sn in parts[i].value.snippets;
      FileSnippetsShaped(info, files[i]);
      assert parts[i] == PartsOf(lower, spec, info, files[i]);
      assert sn in FileSnippets(info, files[i]).value;
    }
  }

  lemma {:induction false} FileSnippetsShaped(info: LangInfo, f: File)
    ensures FileSnippets(info, f).Some? ==> TopicsShaped(FileSnippets(info, f).value)
  {
    TopicsAreTopics(f.data, info.prefix);
  }

  // The file and the project a page was made from
  ghost predicate MadeFrom(lower: Lowering, page: DocPage, proj: ProjectSpec, f: File) {
    IsDocOf(proj, f.name) && PageOf(lower, proj, f) == Some(page)
  }

  lemma {:induction false} CollectedPageFrom(lower: Lowering, spec: SourceSpec, info: LangInfo, files: seq<File>,
                                             page: DocPage)
    returns (proj: ProjectSpec, f: File)
    requires Collected(lower, spec, info, files).Some? && page in Collected(lower, spec, info, files).value.pages
    ensures proj in spec.projects && f in files && MadeFrom(lower, page, proj, f)
  {
    hide Gather, FileSnippets, FilePages;
    var parts := PartsOfAll(lower, spec, info, files);
    GatherFrom(parts);
    var i :| 0 <= i < |parts| && page in parts[i].value.pages;
    f := files[i];
    assert parts[i] == PartsOf(lower, spec, info, f) && page in FilePages(lower, spec.projects, f).value;
    proj := FilePageFrom(lower, spec.projects, f, page);
  }

  function ProjectSlugs(projects: seq<ProjectSpec>): (r: seq<string>)
  {
    seq(|projects|, i requires 0 <= i < |projects| => projects[i].slug)
  }

  // The key of the navigation order identifies a page.
  lemma {:induction false} PageKeyUnique(lower: Lowering, spec: SourceSpec, info: LangInfo, files: seq<File>,
                                         p: DocPage, q: DocPage)
    requires NamesDistinct(files) && Distinct(ProjectSlugs(spec.projects)) && Collected(lower, spec, info, files).Some?
    requires p in Collected(lower, spec, info, files).value.pages &&
      q in Collected(lower, spec, info, files).value.pages
    requires p.project == q.project && p.source == q.source
    ensures p == q
  {
    var proj, f := CollectedPageFrom(lower, spec, info, files, p);
    var proj', f' := CollectedPageFrom(lower, spec, info, files, q);
    PageIsNamed(lower, proj, f);
    PageIsNamed(lower, proj', f');
  }

  lemma {:induction false} PageOrder()
    ensures IsOrder(PageLe)
    ensures forall a, b :: PageLe(a, b) && PageLe(b, a) ==> a.project == b.project && a.source == b.source
  {
    forall a: DocPage, b: DocPage
      ensures PageLe(a, b) || PageLe(b, a)
      ensures PageLe(a, b) && PageLe(b, a) ==> a.project == b.project && a.source == b.source
    {
      StrTotal(a.project, b.project);
      StrTotal(a.source, b.source);
    }
    forall a: DocPage, b: DocPage, c: DocPage | PageLe(a, b) && PageLe(b, c)
      ensures PageLe(a, c)
    {
      PageTransitive(a, b, c);
    }
  }

  lemma {:induction false} PageTransitive(a: DocPage, b: DocPage, c: DocPage)
    requires PageLe(a, b) && PageLe(b, c)
    ensures PageLe(a, c)
  {
    if a.project == b.project == c.project {
      StrTransitive(a.source, b.source, c.source);
    } else {
      StrTotal(a.project, b.project);
      StrTotal(b.project, c.project);
      StrTransitive(a.project, b.project, c.project);
    }
  }

  lemma {:induction false} StrOrder()
    ensures IsOrder(StrLe)
    ensures forall a, b :: StrLe(a, b) && StrLe(b, a) ==> a == b
  {
    forall a: string, b: string
      ensures StrLe(a, b) || StrLe(b, a)
      ensures StrLe(a, b) && StrLe(b, a) ==> a == b
    {
      StrTotal(a, b);
    }
    forall a: string, b: string, c: string | StrLe(a, b) && StrLe(b, c)
      ensures StrLe(a, c)
    {
      StrTransitive(a, b, c);
    }
  }

  lemma {:induction false} TopicsSortedAlike(a: seq<string>, b: seq<string>)
    requires multiset(a) == multiset(b)
    ensures Sort(a, StrLe) == Sort(b, StrLe)
  {
    StrOrder();
    SortSorts(a, StrLe);
    SortSorts(b, StrLe);
    SortedUnique(Sort(a, StrLe), Sort(b, StrLe), StrLe);
  }

  lemma {:induction false} PagesSortedAlike(a: seq<DocPage>, b: seq<DocPage>)
    requires multiset(a) == multiset(b)
    requires forall p, q :: p in a && q in a && p.project == q.project && p.source == q.source ==> p == q
    ensures Sort(a, PageLe) == Sort(b, PageLe)
  {
    PageOrder();
    SortSorts(a, PageLe);
    SortSorts(b, PageLe);
    var sa := Sort(a, PageLe);
    forall p | p in sa
      ensures p in a
    {
      assert p in multiset(sa) && p in multiset(a);
    }
    SortedUnique(sa, Sort(b, PageLe), PageLe);
  }

  // ---------- The run under permutation ----------

  lemma {:induction false} ListedProjects(l: Listing, projects: seq<ProjectSpec>, pages: seq<DocPage>, source: string)
    ensures var r := AddProjects(l, projects, pages, source);
      r.Some? ==> Distinct(ProjectSlugs(projects)) && forall s :: s in r.value.projects <==>
        s in l.projects || s in ProjectSlugs(projects)
    decreases |projects|
  {
    if projects != [] {
      var before, proj := projects[..|projects| - 1], projects[|projects| - 1];
      ListedProjects(l, before, pages, source);
      assert ProjectSlugs(projects) == ProjectSlugs(before) + [proj.slug];
      DistinctSnoc(ProjectSlugs(before), proj.slug);
    }
  }

  // One source's archive may be read in any order.
  lemma {:induction false} SourceOrderIrrelevant(lower: Lowering, out: Output, src: Input, files: seq<File>)
    requires multiset(files) == multiset(src.files) && NamesDistinct(src.files)
    ensures AddSource(lower, out, src.(files := files)) == AddSource(lower, out, src)
  {
    if IsLang(src.spec.lang) {
      var info, reg := InfoOf(src.spec.lang), Reg(out.variants, out.snippetFiles, []);
      WalkPermuted(lower, src.spec, info, src.files, files, reg);
      var w, w' := Walked(lower, src.spec, info, src.files, reg), Walked(lower, src.spec, info, files, reg);
      if w.Some? {
        var l := Listing(out.docFiles, out.projects, []);
        TopicsSortedAlike(w.value.0.topics, w'.value.0.topics);
        ListedProjects(l, src.spec.projects, Sort(w.value.1, PageLe), src.spec.name);
        ListedProjects(l, src.spec.projects, Sort(w'.value.1, PageLe), src.spec.name);
      }
    }
  }

  // The two walks fail alike, register the same, and collect pages that sort alike when the
  // source's projects are distinct (the run fails when they are not).
  lemma {:induction false} WalkPermuted(lower: Lowering, spec: SourceSpec, info: LangInfo, files: seq<File>,
                                        files': seq<File>, reg: Reg)
    requires multiset(files) == multiset(files') && NamesDistinct(files) && IsLangInfo(spec.lang, info)
    ensures var w, w' := Walked(lower, spec, info, files, reg), Walked(lower, spec, info, files', reg);
      && (w == None <==> w' == None)
      && (w.Some? ==>
            && SameReg(Some(w.value.0), Some(w'.value.0))
            && (Distinct(ProjectSlugs(spec.projects)) ==> Sort(w.value.1, PageLe) == Sort(w'.value.1, PageLe)))
  {
    hide Collected, RegisterAll, IsLangInfo, TopicsShaped, NamesDistinct, Sort;
    CollectedPermuted(lower, spec, info, files, files');
    var parts := Collected(lower, spec, info, files);
    if parts.Some? {
      var parts' := Collected(lower, spec, info, files');
      CollectedShaped(lower, spec, info, files);
      RegisterPermuted(reg, parts.value.snippets, parts'.value.snippets, spec, info);
      if Distinct(ProjectSlugs(spec.projects)) {
        forall p, q | p in parts.value.pages && q in parts.value.pages && p.project == q.project && p.source == q.source
          ensures p == q
        {
          PageKeyUnique(lower, spec, info, files, p, q);
        }
        PagesSortedAlike(parts.value.pages, parts'.value.pages);
      }
    }
  }

  // The same sources with the same archives, each read in some order
  ghost predicate SameArchives(inputs: seq<Input>, inputs': seq<Input>) {
    && |inputs| == |inputs'|
    && forall i :: 0 <= i < |inputs| ==>
         && inputs'[i] == inputs[i].(files := inputs'[i].files)
         && multiset(inputs'[i].files) == multiset(inputs[i].files) && NamesDistinct(inputs[i].files)
  }

  // The run succeeds or fails alike in every archive order and on success its output is the same.
  lemma {:induction false} RunOrderIrrelevant(lower: Lowering, inputs: seq<Input>, inputs': seq<Input>)
    requires SameArchives(inputs, inputs')
    ensures AddSources(lower, inputs') == AddSources(lower, inputs)
    decreases |inputs|
  {
    if inputs != [] {
      var n := |inputs| - 1;
      RunOrderIrrelevant(lower, inputs[..n], inputs'[..n]);
      var before := AddSources(lower, inputs[..n]);
      if before.Some? {
        SourceOrderIrrelevant(lower, before.value, inputs[n], inputs'[n].files);
      }
    }
  }
}
