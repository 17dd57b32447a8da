/**
 * What the sitemap contains, as functions of the origin, the registry and the
 * content source: one root entry per language, then one entry per
 * (language, page), grouped by joined slug key in order of first appearance.
 */
module SitemapSpec {
  import opened Wrappers
  import opened JsStrings
  import opened I18n
  import opened Seqs

  /** A documentation page as the content source reports it; `lastModified` is a valid timestamp or nothing. */
  datatype Page = Page(slugs: seq<string>, lastModified: Option<int>)

  /** A page together with the language it was listed under. */
  datatype LangPage = LangPage(lang: string, page: Page)

  datatype ChangeFrequency = Daily | Weekly | Monthly

  /** One sitemap entry; `priority` is in tenths (10 stands for 1.0). */
  datatype SitemapEntry = SitemapEntry(
    url: string,
    lastModified: Option<int>,
    changeFrequency: ChangeFrequency,
    priority: nat,
    alternates: map<string, string>)

  /** The alternates key naming the fallback page. */
  const XDefault: string := "x-default"

  /** `page.slugs.join('/')`. */
  function SlugKey(page: Page): string {
    Join(page.slugs, "/")
  }

  /** `docsPathForSlug`: the documentation path of a slug key. */
  function DocsPath(slugKey: string): string {
    if slugKey != "" then "docs/" + slugKey else "docs"
  }

  // ---------------------------------------------------------------- alternates

  /** The language `x-default` points to: the default when present, else the first language. */
  function ChosenDefault(config: I18nConfig, langs: seq<string>): (r: Option<string>)
    ensures r.Some? <==> |langs| > 0
    ensures r.Some? ==> r.value in langs
  {
    if config.defaultLanguage in langs then Some(config.defaultLanguage)
    else if |langs| > 0 then Some(langs[0])
    else None
  }

  /** The per-language part of `generateAlternates(langs, path)`. */
  function LanguageAlternates(origin: string, langs: seq<string>, path: string): map<string, string> {
    map l | l in langs :: origin + LocalePath(l, path)
  }

  /** `generateAlternates(langs, path)`: `x-default` is added only for a chosen language that is a non-empty string. */
  function Alternates(origin: string, config: I18nConfig, langs: seq<string>, path: string): map<string, string> {
    var m := LanguageAlternates(origin, langs, path);
    var d := ChosenDefault(config, langs);
    if d.Some? && d.value != "" then m[XDefault := origin + LocalePath(d.value, path)] else m
  }

  // ---------------------------------------------------------------- pages and grouping

  /** The pages of one language, tagged with it. */
  function Tagged(lang: string, pages: seq<Page>): seq<LangPage> {
    seq(|pages|, k requires 0 <= k < |pages| => LangPage(lang, pages[k]))
  }

  /** Every language's pages, language by language in registry order, each in source order. */
  function AllPages(langs: seq<string>, getPages: string -> seq<Page>): seq<LangPage>
    decreases |langs|
  {
    if langs == [] then []
    else
      var lang := langs[|langs| - 1];
      AllPages(langs[..|langs| - 1], getPages) + Tagged(lang, getPages(lang))
  }

  /** The slug keys of `ps`, each once, in order of first appearance (the key order of `pagesBySlug`). */
  function GroupKeys(ps: seq<LangPage>): seq<string>
    decreases |ps|
  {
    if ps == [] then []
    else
      var keys := GroupKeys(ps[..|ps| - 1]);
      var key := SlugKey(ps[|ps| - 1].page);
      if key in keys then keys else keys + [key]
  }

  /** The pages of `ps` whose slug key is `key`, in order (the value of `pagesBySlug` at `key`). */
  function Group(ps: seq<LangPage>, key: string): seq<LangPage>
    decreases |ps|
  {
    if ps == [] then []
    else
      var last := ps[|ps| - 1];
      Group(ps[..|ps| - 1], key) + (if SlugKey(last.page) == key then [last] else [])
  }

  /** The latest timestamp among `lang`'s pages in `ps` (the value of `latestModifiedByLang` at `lang`). */
  function Latest(ps: seq<LangPage>, lang: string): Option<int>
    decreases |ps|
  {
    if ps == [] then None
    else LatestStep(Latest(ps[..|ps| - 1], lang), ps[|ps| - 1], lang)
  }

  /** The latest timestamp of `lang` once page `x` is seen: `x`'s, if it is `lang`'s and strictly later than `prev`. */
  function LatestStep(prev: Option<int>, x: LangPage, lang: string): Option<int> {
    if x.lang == lang && x.page.lastModified.Some? && (prev.None? || x.page.lastModified.value > prev.value)
    then x.page.lastModified
    else prev
  }

  /** `langPages.map(p => p.lang)`. */
  function AvailableLangs(group: seq<LangPage>): seq<string> {
    seq(|group|, i requires 0 <= i < |group| => group[i].lang)
  }

  // ---------------------------------------------------------------- entries

  /** The priority of a documentation page of the given depth, in tenths. */
  function Priority(depth: nat): (r: nat)
    ensures 7 <= r <= 9
  {
    if depth == 1 then 9 else if depth == 2 then 8 else 7
  }

  /** API reference pages change monthly, every other page weekly. */
  function ChangeFreq(slugs: seq<string>): (r: ChangeFrequency)
    ensures r == Monthly <==> |slugs| > 0 && slugs[0] == "api"
    ensures r != Daily
  {
    if |slugs| > 0 && slugs[0] == "api" then Monthly else Weekly
  }

  /** The root entry of a language, before its `lastModified` is filled in. */
  function RootEntry(origin: string, config: I18nConfig, lang: string): SitemapEntry {
    SitemapEntry(origin + LocalePath(lang, ""), None, Daily, 10, Alternates(origin, config, config.languages, ""))
  }

  function RootEntries(origin: string, config: I18nConfig): seq<SitemapEntry> {
    seq(|config.languages|, i requires 0 <= i < |config.languages| => RootEntry(origin, config, config.languages[i]))
  }

  /** The language a root entry's URL names: its first non-empty segment once the origin is removed. */
  function RootKey(origin: string, url: string): Option<string> {
    FirstNonEmpty(Split(ReplaceFirst(url, origin, ""), '/'))
  }

  /** An entry after the back-fill: it takes the latest timestamp of the language its URL names, if there is one. */
  function BackfillEntry(origin: string, e: SitemapEntry, ps: seq<LangPage>): SitemapEntry {
    match RootKey(origin, e.url)
    case None => e
    case Some(lang) =>
      match Latest(ps, lang)
      case None => e
      case Some(t) => e.(lastModified := Some(t))
  }

  function Backfilled(origin: string, es: seq<SitemapEntry>, ps: seq<LangPage>): seq<SitemapEntry> {
    seq(|es|, i requires 0 <= i < |es| => BackfillEntry(origin, es[i], ps))
  }

  /** The entry of one page listed under one language. */
  function DocEntry(origin: string, config: I18nConfig, lp: LangPage, langs: seq<string>, docsPath: string): SitemapEntry {
    SitemapEntry(
      origin + LocalePath(lp.lang, docsPath),
      lp.page.lastModified,
      ChangeFreq(lp.page.slugs),
      Priority(|lp.page.slugs|),
      Alternates(origin, config, langs, docsPath))
  }

  /** The entry of a page, for fixed alternates languages and path. */
  function DocEntryOf(origin: string, config: I18nConfig, langs: seq<string>, docsPath: string): LangPage -> SitemapEntry {
    lp => DocEntry(origin, config, lp, langs, docsPath)
  }

  /** The entries of `pages`, in order, all with the same alternates languages and path. */
  function PageEntries(origin: string, config: I18nConfig, pages: seq<LangPage>, langs: seq<string>, docsPath: string): seq<SitemapEntry> {
    MapSeq(pages, DocEntryOf(origin, config, langs, docsPath))
  }

  /** The entries of one slug group, in the group's order. */
  function GroupEntries(origin: string, config: I18nConfig, group: seq<LangPage>, key: string): seq<SitemapEntry> {
    PageEntries(origin, config, group, AvailableLangs(group), DocsPath(key))
  }

  /** The entries of the group of a key. */
  function GroupEntriesOf(origin: string, config: I18nConfig, ps: seq<LangPage>): string -> seq<SitemapEntry> {
    key => GroupEntries(origin, config, Group(ps, key), key)
  }

  /** The entries of the groups `keys` of `ps`, group after group. */
  function DocEntries(origin: string, config: I18nConfig, ps: seq<LangPage>, keys: seq<string>): seq<SitemapEntry> {
    FlatMap(keys, GroupEntriesOf(origin, config, ps))
  }

  /** `sitemap()`: the back-filled root entries, then every group's entries. */
  function SitemapOf(origin: string, config: I18nConfig, getPages: string -> seq<Page>): seq<SitemapEntry> {
    var all := AllPages(config.languages, getPages);
    Backfilled(origin, RootEntries(origin, config), all) + DocEntries(origin, config, all, GroupKeys(all))
  }
}
