/**
The files a successful sync run writes: one for each topic the manifest lists, with the code
extracted for it, and one for each listed docs page, with the page's body.
*/
module OutputFiles {
  import opened Slug
  import opened Order
  import opened Entries
  import opened Manifests
  import opened SyncFiles
  import opened SyncRun
  import opened ArchiveOrder
  import opened Conservation
  import Markers

  // Everything in before is still there.
  ghost predicate Extends(before: map<string, string>, after: map<string, string>) {
    forall k <- before :: k in after && after[k] == before[k]
  }

  // ---------- Snippet files ----------

  function OutExt(lang: string): string {
    if IsLang(lang) then InfoOf(lang).outExt else ""
  }

  function TopicPaths(topics: seq<string>, lang: string): set<string> {
    set t | t in topics :: SnippetFile(t, lang, OutExt(lang))
  }

  // The snippet files of the topics that the manifest lists
  function SnippetPaths(sources: seq<ManifestSource>): set<string> {
    if sources == [] then {}
    else
      var s := sources[|sources| - 1];
      SnippetPaths(sources[..|sources| - 1]) + TopicPaths(s.topics, s.lang)
  }

  function TopicsIn(sources: seq<ManifestSource>): nat {
    if sources == [] then 0 else TopicsIn(sources[..|sources| - 1]) + |sources[|sources| - 1].topics|
  }

  ghost predicate IsVariantFile(variants: map<string, string>, topic: string, lang: string, path: string) {
    && Markers.IsTopic(topic) && IsLang(lang) && VariantKey(topic, lang) in variants
    && path == SnippetFile(topic, lang, OutExt(lang))
  }

  ghost predicate HasVariant(variants: map<string, string>, path: string) {
    exists topic, lang :: IsVariantFile(variants, topic, lang, path)
  }

  // Every snippet file belongs to a provided variant.
  ghost predicate SnippetsOwned(variants: map<string, string>, files: map<string, string>) {
    forall p <- files :: HasVariant(variants, p)
  }

  // What one source adds to the snippet files
  ghost predicate StepCode(out: Output, out': Output, snippets: seq<Markers.Snippet>, spec: SourceSpec) {
    && IsLang(spec.lang) && TopicsShaped(snippets) && TopicsFresh(out.variants, snippets, spec.lang)
    && Filled(out.variants, out'.variants, VariantEntries(snippets, spec))
    && Filled(out.snippetFiles, out'.snippetFiles, CodeEntries(snippets, spec.lang, OutExt(spec.lang)))
  }

  lemma {:induction false} StepAddsCode(lower: Lowering, out: Output, src: Input, out': Output)
    requires IsStep(lower, out, src, out')
    ensures IsLang(src.spec.lang)
    ensures var parts := Collected(lower, src.spec, InfoOf(src.spec.lang), src.files);
      parts.Some? && StepCode(out, out', parts.value.snippets, src.spec)
  {
    var info, reg0 := InfoOf(src.spec.lang), Reg(out.variants, out.snippetFiles, []);
    var snippets := Collected(lower, src.spec, info, src.files).value.snippets;
    CollectedShaped(lower, src.spec, info, src.files);
    RegisterAllIs(reg0, snippets, src.spec, info);
  }

  // A file of an old variant is not the file of a fresh topic.
  lemma {:induction false} FreshPaths(variants: map<string, string>, files: map<string, string>,
                                      snippets: seq<Markers.Snippet>, lang: string)
    requires IsLang(lang) && SnippetsOwned(variants, files) && TopicsShaped(snippets) &&
      TopicsFresh(variants, snippets, lang)
    ensures KeysOf(CodeEntries(snippets, lang, OutExt(lang))) !! files.Keys
  {
    var entries := CodeEntries(snippets, lang, OutExt(lang));
    forall i | 0 <= i < |snippets|
      ensures entries[i].0 !in files
    {
      assert snippets[i] in snippets;
      if entries[i].0 in files {
        assert HasVariant(variants, entries[i].0);
        var topic, lang' :| IsVariantFile(variants, topic, lang', entries[i].0);
        SnippetFileInjective(snippets[i].topic, lang, InfoOf(lang), topic, lang', InfoOf(lang'));
      }
    }
  }

  lemma {:induction false} EntryAt(entries: seq<Entry>, key: string) returns (i: nat)
    requires key in KeysOf(entries)
    ensures i < |entries| && entries[i].0 == key
  {
    i :| 0 <= i < |entries| && entries[i].0 == key;
  }

  lemma {:induction false} OwnedAfter(out: Output, out': Output, snippets: seq<Markers.Snippet>, spec: SourceSpec)
    requires SnippetsOwned(out.variants, out.snippetFiles) && StepCode(out, out', snippets, spec)
    ensures SnippetsOwned(out'.variants, out'.snippetFiles)
  {
    var entries := CodeEntries(snippets, spec.lang, OutExt(spec.lang));
    forall p | p in out'.snippetFiles
      ensures HasVariant(out'.variants, p)
    {
      if p in KeysOf(entries) {
        var i := EntryAt(entries, p);
        NewVariant(out.variants, out'.variants, snippets, spec, i);
      } else {
        assert HasVariant(out.variants, p);
        OldVariant(out.variants, out'.variants, p);
      }
    }
  }

  lemma {:induction false} OldVariant(variants: map<string, string>, variants': map<string, string>, path: string)
    requires HasVariant(variants, path) && variants.Keys <= variants'.Keys
    ensures HasVariant(variants', path)
  {
    var topic, lang :| IsVariantFile(variants, topic, lang, path);
    assert IsVariantFile(variants', topic, lang, path);
  }

  lemma {:induction false} NewVariant(variants: map<string, string>, variants': map<string, string>,
                                      snippets: seq<Markers.Snippet>, spec: SourceSpec, i: nat)
    requires i < |snippets| && TopicsShaped(snippets) && IsLang(spec.lang) &&
      Filled(variants, variants', VariantEntries(snippets, spec))
    ensures HasVariant(variants', SnippetFile(snippets[i].topic, spec.lang, OutExt(spec.lang)))
  {
    assert VariantEntries(snippets, spec)[i] in VariantEntries(snippets, spec) && snippets[i] in snippets;
    assert IsVariantFile(variants', snippets[i].topic, spec.lang,
                         SnippetFile(snippets[i].topic, spec.lang, OutExt(spec.lang)));
  }

  lemma {:induction false} CodeKeysAre(snippets: seq<Markers.Snippet>, topics: seq<string>, lang: string)
    requires multiset(topics) == multiset(Topics(snippets))
    ensures KeysOf(CodeEntries(snippets, lang, OutExt(lang))) == TopicPaths(topics, lang)
    ensures |topics| == |snippets|
  {
    var entries := CodeEntries(snippets, lang, OutExt(lang));
    SameLength(topics, Topics(snippets));
    assert forall t :: t in topics <==> t in multiset(topics);
    assert forall t :: t in Topics(snippets) <==> t in multiset(Topics(snippets));
    forall i | 0 <= i < |snippets|
      ensures entries[i].0 in TopicPaths(topics, lang)
    {
      assert Topics(snippets)[i] in Topics(snippets);
    }
    forall t | t in topics
      ensures SnippetFile(t, lang, OutExt(lang)) in KeysOf(entries)
    {
      var i :| 0 <= i < |snippets| && Topics(snippets)[i] == t;
      assert entries[i] in entries;
    }
  }

  lemma {:induction false} CodeCount(out: Output, out': Output, snippets: seq<Markers.Snippet>, spec: SourceSpec)
    requires SnippetsOwned(out.variants, out.snippetFiles) && StepCode(out, out', snippets, spec)
    ensures |out'.snippetFiles| == |out.snippetFiles| + |snippets| && Extends(out.snippetFiles, out'.snippetFiles)
  {
    var entries := CodeEntries(snippets, spec.lang, OutExt(spec.lang));
    FreshPaths(out.variants, out.snippetFiles, snippets, spec.lang);
    forall i, j | 0 <= i < j < |entries|
      ensures entries[i].0 != entries[j].0
    {
      assert snippets[i] in snippets && snippets[j] in snippets;
      assert Topics(snippets)[i] != Topics(snippets)[j];
      OtherTopic(snippets[i].topic, snippets[j].topic, spec.lang, InfoOf(spec.lang));
    }
    FilledCount(out.snippetFiles, out'.snippetFiles, entries);
  }

  ghost predicate CodeInv(out: Output) {
    && SnippetsOwned(out.variants, out.snippetFiles)
    && out.snippetFiles.Keys == SnippetPaths(out.sources) && |out.snippetFiles| == TopicsIn(out.sources)
  }

  lemma {:induction false} StepKeepsCode(lower: Lowering, out: Output, src: Input, out': Output)
    requires IsStep(lower, out, src, out') && CodeInv(out)
    ensures CodeInv(out') && Extends(out.snippetFiles, out'.snippetFiles)
  {
    StepAddsCode(lower, out, src, out');
    SourceIsListed(lower, out, src, out');
    var snippets, ms := Collected(lower, src.spec, InfoOf(src.spec.lang), src.files).value.snippets,
      out'.sources[|out.sources|];
    OwnedAfter(out, out', snippets, src.spec);
    CodeCount(out, out', snippets, src.spec);
    CodeKeysAre(snippets, ms.topics, src.spec.lang);
  }

  lemma {:induction false} NothingYet(out: Output)
    requires out == NOTHING
    ensures CodeInv(out)
  {
  }

  lemma {:induction false} TraceKeepsCode(lower: Lowering, inputs: seq<Input>, outs: seq<Output>, n: nat)
    requires IsTrace(lower, inputs, outs) && n <= |inputs|
    ensures CodeInv(outs[n])
    decreases n
  {
    hide CodeInv, IsStep;
    if n == 0 {
      NothingYet(outs[0]);
    } else {
      TraceKeepsCode(lower, inputs, outs, n - 1);
      TraceStep(lower, inputs, outs, n - 1);
      StepKeepsCode(lower, outs[n - 1], inputs[n - 1], outs[n]);
    }
  }

  lemma {:induction false} TraceExtendsCode(lower: Lowering, inputs: seq<Input>, outs: seq<Output>, m: nat, n: nat)
    requires IsTrace(lower, inputs, outs) && m <= n <= |inputs|
    ensures Extends(outs[m].snippetFiles, outs[n].snippetFiles)
    decreases n
  {
    hide CodeInv, IsStep;
    if m < n {
      TraceExtendsCode(lower, inputs, outs, m, n - 1);
      TraceKeepsCode(lower, inputs, outs, n - 1);
      TraceStep(lower, inputs, outs, n - 1);
      StepKeepsCode(lower, outs[n - 1], inputs[n - 1], outs[n]);
    }
  }

  // The snippet files are those of the listed topics, as many as topics are listed, so no two
  // listed topics share one; and each holds the code extracted for its topic.
  lemma {:induction false} SnippetsConserved(lower: Lowering, inputs: seq<Input>, i: nat)
    requires AddSources(lower, inputs).Some? && i < |inputs|
    ensures var out := AddSources(lower, inputs).value;
      && out.snippetFiles.Keys == SnippetPaths(out.sources) && |out.snippetFiles| == TopicsIn(out.sources)
      && IsLang(inputs[i].spec.lang)
      && var lang := inputs[i].spec.lang;
         var parts := Collected(lower, inputs[i].spec, InfoOf(lang), inputs[i].files);
         parts.Some? && forall sn <- parts.value.snippets ::
           var path := SnippetFile(sn.topic, lang, OutExt(lang));
           path in out.snippetFiles && out.snippetFiles[path] == sn.code
  {
    var outs := TraceOf(lower, inputs);
    TraceKeepsCode(lower, inputs, outs, |inputs|);
    TraceStep(lower, inputs, outs, i);
    StepAddsCode(lower, outs[i], inputs[i], outs[i + 1]);
    TraceExtendsCode(lower, inputs, outs, i + 1, |inputs|);
    var lang := inputs[i].spec.lang;
  }

}
