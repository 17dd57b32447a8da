/**
 * `sitemap()` as the step-by-step builder it is: an `entries` array grown by
 * `push`, a slug-keyed map and a per-language timestamp map filled in nested
 * loops, and root entries patched in place. Each stage is proved to produce
 * exactly what the specification functions of `SitemapSpec` describe.
 */
module Sitemap {
  import opened Wrappers
  import opened JsStrings
  import opened I18n
  import opened SitemapSpec
  import opened SitemapProperties
  import opened Seqs

  /** `generateAlternates(langs, path)`: one alternate per language, then `x-default` when a non-empty language is chosen. */
  method GenerateAlternates(origin: string, config: I18nConfig, langs: seq<string>, path: string)
    returns (alternates: map<string, string>)
    ensures alternates == Alternates(origin, config, langs, path)
  {
    alternates := map[];
    for i := 0 to |langs|
      invariant alternates == LanguageAlternates(origin, langs[..i], path)
    {
      assert langs[..i + 1] == langs[..i] + [langs[i]];
      alternates := alternates[langs[i] := origin + LocalePath(langs[i], path)];
    }
    assert langs[..|langs|] == langs;
    var defaultLang: Option<string>;
    if config.defaultLanguage in langs {
      defaultLang := Some(config.defaultLanguage);
    } else if |langs| > 0 {
      defaultLang := Some(langs[0]);
    } else {
      defaultLang := None;
    }
    if defaultLang.Some? && defaultLang.value != "" {
      alternates := alternates[XDefault := origin + LocalePath(defaultLang.value, path)];
    }
  }

  /** The first loop: one root entry per language, in registry order. */
  method PushRootEntries(origin: string, config: I18nConfig) returns (entries: seq<SitemapEntry>)
    ensures entries == RootEntries(origin, config)
  {
    entries := [];
    var langs := config.languages;
    for i := 0 to |langs|
      invariant |entries| == i
      invariant forall k :: 0 <= k < i ==> entries[k] == RootEntry(origin, config, langs[k])
    {
      var alternates := GenerateAlternates(origin, config, langs, "");
      entries := entries + [SitemapEntry(origin + LocalePath(langs[i], ""), None, Daily, 10, alternates)];
    }
  }

  /** What `pagesBySlug` (its keys in insertion order, and its values) and `latestModifiedByLang` hold after the pages `ps`. */
  ghost predicate GroupedAs(ps: seq<LangPage>, keys: seq<string>, bySlug: map<string, seq<LangPage>>, latest: map<string, int>) {
    && keys == GroupKeys(ps)
    && (forall k :: k in bySlug <==> k in keys)
    && (forall k :: k in bySlug ==> bySlug[k] == Group(ps, k))
    && (forall l :: Lookup(latest, l) == Latest(ps, l))
  }

  /** Recording one page keeps `GroupedAs`. */
  lemma GroupedAsStep(ps: seq<LangPage>, x: LangPage, keys: seq<string>, bySlug: map<string, seq<LangPage>>, latest: map<string, int>,
                      keys': seq<string>, bySlug': map<string, seq<LangPage>>, latest': map<string, int>)
    requires GroupedAs(ps, keys, bySlug, latest)
    requires var key := SlugKey(x.page);
             && keys' == (if key in bySlug then keys else keys + [key])
             && bySlug' == bySlug[key := (if key in bySlug then bySlug[key] else []) + [x]]
    requires forall l :: Lookup(latest', l) == LatestStep(Lookup(latest, l), x, l)
    ensures GroupedAs(ps + [x], keys', bySlug', latest')
  {
    GroupingStep(ps, x);
    var key := SlugKey(x.page);
    if key !in bySlug {
      assert Group(ps, key) == [] by {
        GroupOfAbsentKey(ps, key);
      }
    }
  }

  /** The tagged pages of one language, one page further. */
  lemma TaggedStep(lang: string, pages: seq<Page>, j: nat)
    requires j < |pages|
    ensures Tagged(lang, pages[..j + 1]) == Tagged(lang, pages[..j]) + [LangPage(lang, pages[j])]
  {
  }

  /** The pages of the registry's languages, one language further. */
  lemma AllPagesStep(langs: seq<string>, i: nat, getPages: string -> seq<Page>)
    requires i < |langs|
    ensures AllPages(langs[..i + 1], getPages) == AllPages(langs[..i], getPages) + Tagged(langs[i], getPages(langs[i]))
  {
    assert langs[..i + 1][..i] == langs[..i];
  }

  /** The body of the grouping loop: file one page under its slug key and update its language's latest timestamp. */
  method RecordPage(keys: seq<string>, bySlug: map<string, seq<LangPage>>, latest: map<string, int>, lang: string, page: Page,
                    ghost done: seq<LangPage>)
    returns (keys': seq<string>, bySlug': map<string, seq<LangPage>>, latest': map<string, int>)
    requires GroupedAs(done, keys, bySlug, latest)
    ensures GroupedAs(done + [LangPage(lang, page)], keys', bySlug', latest')
  {
    keys', bySlug', latest' := keys, bySlug, latest;
    var slugKey := Join(page.slugs, "/");
    if slugKey !in bySlug' {
      bySlug' := bySlug'[slugKey := []];
      keys' := keys' + [slugKey];
    }
    bySlug' := bySlug'[slugKey := bySlug'[slugKey] + [LangPage(lang, page)]];
    if page.lastModified.Some? {
      var prev := Lookup(latest', lang);
      if prev.None? || page.lastModified.value > prev.value {
        latest' := latest'[lang := page.lastModified.value];
      }
    }
    GroupedAsStep(done, LangPage(lang, page), keys, bySlug, latest, keys', bySlug', latest');
  }

  /** The nested grouping loop: every language's pages go into `pagesBySlug` and `latestModifiedByLang`. */
  method GroupPages(langs: seq<string>, getPages: string -> seq<Page>)
    returns (keys: seq<string>, bySlug: map<string, seq<LangPage>>, latest: map<string, int>)
    ensures GroupedAs(AllPages(langs, getPages), keys, bySlug, latest)
  {
    keys, bySlug, latest := [], map[], map[];
    ghost var done: seq<LangPage> := [];
    for i := 0 to |langs|
      invariant done == AllPages(langs[..i], getPages)
      invariant GroupedAs(done, keys, bySlug, latest)
    {
      var lang := langs[i];
      var pages := getPages(lang);
      for j := 0 to |pages|
        invariant done == AllPages(langs[..i], getPages) + Tagged(lang, pages[..j])
        invariant GroupedAs(done, keys, bySlug, latest)
      {
        keys, bySlug, latest := RecordPage(keys, bySlug, latest, lang, pages[j], done);
        TaggedStep(lang, pages, j);
        AppendAssoc(AllPages(langs[..i], getPages), Tagged(lang, pages[..j]), [LangPage(lang, pages[j])]);
        done := done + [LangPage(lang, pages[j])];
      }
      assert pages[..|pages|] == pages;
      AllPagesStep(langs, i, getPages);
    }
    assert langs[..|langs|] == langs;
  }

  /** The back-fill loop: each entry whose URL names a language with a latest timestamp takes that timestamp. */
  method BackfillRootLastModified(origin: string, entries: seq<SitemapEntry>, latest: map<string, int>, ghost ps: seq<LangPage>)
    returns (filled: seq<SitemapEntry>)
    requires forall l :: Lookup(latest, l) == Latest(ps, l)
    ensures filled == Backfilled(origin, entries, ps)
  {
    filled := entries;
    for i := 0 to |entries|
      invariant |filled| == |entries|
      invariant forall k :: 0 <= k < i ==> filled[k] == BackfillEntry(origin, entries[k], ps)
      invariant forall k :: i <= k < |entries| ==> filled[k] == entries[k]
    {
      var rest := ReplaceFirst(filled[i].url, origin, "");
      var match_ := FirstNonEmpty(Split(rest, '/'));
      if match_.None? {
        continue;
      }
      var lm := Lookup(latest, match_.value);
      if lm.Some? {
        filled := filled[i := filled[i].(lastModified := Some(lm.value))];
      }
    }
  }

  /** The body of the inner part of the last loop: the entry of one page, with its depth-based priority and its change frequency. */
  method MakeDocEntry(origin: string, config: I18nConfig, lp: LangPage, availableLangs: seq<string>, docsPath: string)
    returns (entry: SitemapEntry)
    ensures entry == DocEntry(origin, config, lp, availableLangs, docsPath)
  {
    var lang, page := lp.lang, lp.page;
    var depth := |page.slugs|;
    var priority: nat;
    if depth == 1 {
      priority := 9;
    } else if depth == 2 {
      priority := 8;
    } else {
      priority := 7;
    }
    var isApiPage := |page.slugs| > 0 && page.slugs[0] == "api";
    var changeFrequency := if isApiPage then Monthly else Weekly;
    var alternates := GenerateAlternates(origin, config, availableLangs, docsPath);
    entry := SitemapEntry(origin + LocalePath(lang, docsPath), page.lastModified, changeFrequency, priority, alternates);
  }

  /** The entries of a group's pages, one page further. */
  lemma PageEntriesStep(origin: string, config: I18nConfig, pages: seq<LangPage>, j: nat, langs: seq<string>, docsPath: string)
    requires j < |pages|
    ensures PageEntries(origin, config, pages[..j + 1], langs, docsPath)
            == PageEntries(origin, config, pages[..j], langs, docsPath) + [DocEntry(origin, config, pages[j], langs, docsPath)]
  {
    MapSeqStep(pages, DocEntryOf(origin, config, langs, docsPath), j);
  }

  /** The inner part of the last loop: one entry per page of a group, in the group's order. */
  method PushGroupEntries(origin: string, config: I18nConfig, entries: seq<SitemapEntry>, slugKey: string, langPages: seq<LangPage>)
    returns (result: seq<SitemapEntry>)
    ensures result == entries + GroupEntries(origin, config, langPages, slugKey)
  {
    var availableLangs := AvailableLangs(langPages);
    var docsPath := DocsPath(slugKey);
    result := entries;
    for j := 0 to |langPages|
      invariant result == entries + PageEntries(origin, config, langPages[..j], availableLangs, docsPath)
    {
      var entry := MakeDocEntry(origin, config, langPages[j], availableLangs, docsPath);
      PageEntriesStep(origin, config, langPages, j, availableLangs, docsPath);
      AppendAssoc(entries, PageEntries(origin, config, langPages[..j], availableLangs, docsPath), [entry]);
      result := result + [entry];
    }
    assert langPages[..|langPages|] == langPages;
  }

  /** The groups' entries, one group further. */
  lemma DocEntriesStep(origin: string, config: I18nConfig, ps: seq<LangPage>, keys: seq<string>, i: nat)
    requires i < |keys|
    ensures DocEntries(origin, config, ps, keys[..i + 1])
            == DocEntries(origin, config, ps, keys[..i]) + GroupEntries(origin, config, Group(ps, keys[i]), keys[i])
  {
    FlatMapStep(keys, GroupEntriesOf(origin, config, ps), i);
  }

  /** The last loop: for each group in key order, the entries of its pages. */
  method PushDocEntries(origin: string, config: I18nConfig, entries: seq<SitemapEntry>, keys: seq<string>,
                        bySlug: map<string, seq<LangPage>>, ghost ps: seq<LangPage>)
    returns (result: seq<SitemapEntry>)
    requires forall k :: k in keys ==> k in bySlug && bySlug[k] == Group(ps, k)
    ensures result == entries + DocEntries(origin, config, ps, keys)
  {
    result := entries;
    for i := 0 to |keys|
      invariant result == entries + DocEntries(origin, config, ps, keys[..i])
    {
      var slugKey := keys[i];
      var langPages := bySlug[slugKey];
      result := PushGroupEntries(origin, config, result, slugKey, langPages);
      DocEntriesStep(origin, config, ps, keys, i);
      AppendAssoc(entries, DocEntries(origin, config, ps, keys[..i]), GroupEntries(origin, config, langPages, slugKey));
    }
    assert keys[..|keys|] == keys;
  }

  /** `sitemap()`: the entries, built step by step, are exactly `SitemapOf`. */
  method BuildSitemap(origin: string, config: I18nConfig, getPages: string -> seq<Page>)
    returns (entries: seq<SitemapEntry>)
    ensures entries == SitemapOf(origin, config, getPages)
  {
    entries := PushRootEntries(origin, config);
    var keys, bySlug, latest := GroupPages(config.languages, getPages);
    ghost var all := AllPages(config.languages, getPages);
    entries := BackfillRootLastModified(origin, entries, latest, all);
    entries := PushDocEntries(origin, config, entries, keys, bySlug, all);
  }
}
