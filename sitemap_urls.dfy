/**
 * When no sitemap URL repeats: one root per language and one entry per
 * (language, slug key), provided each language lists each slug key once.
 */
module SitemapUrls {
  import opened JsStrings
  import opened I18n
  import opened SitemapSpec
  import opened SitemapProperties
  import opened Seqs

  /** The URL of an entry, as a function value. */
  function UrlOf(e: SitemapEntry): string {
    e.url
  }

  /** No two entries share a URL. */
  predicate DistinctUrls(es: seq<SitemapEntry>) {
    forall i, j :: 0 <= i < j < |es| ==> es[i].url != es[j].url
  }

  /** Each registry language lists no two pages with the same slug key. */
  predicate UniqueSlugKeys(config: I18nConfig, getPages: string -> seq<Page>) {
    forall l, i, j :: l in config.languages && 0 <= i < j < |getPages(l)| ==> SlugKey(getPages(l)[i]) != SlugKey(getPages(l)[j])
  }

  /** No two tagged pages share both language and slug key. */
  predicate UniqueLangKeys(ps: seq<LangPage>) {
    forall i, j :: 0 <= i < j < |ps| ==> ps[i].lang != ps[j].lang || SlugKey(ps[i].page) != SlugKey(ps[j].page)
  }

  // ---------------------------------------------------------------- strings

  lemma PrefixCancel(p: string, r1: string, r2: string)
    ensures p + r1 == p + r2 ==> r1 == r2
  {
    assert (p + r1)[|p|..] == r1;
    assert (p + r2)[|p|..] == r2;
  }

  /** `l/d` with a one-segment `l` splits into `l` and the pieces of `d`. */
  lemma SegmentSplit(l: string, d: string)
    requires '/' !in l
    ensures Split(l + "/" + d, '/') == [l] + Split(d, '/')
  {
    assert l + "/" + d == l + ['/'] + d;
    SplitAtSeparator(l, '/', d);
  }

  /** Two paths `l/d` differ unless both their first segments and their rests agree. */
  lemma SegmentPathsApart(l1: string, d1: string, l2: string, d2: string)
    requires '/' !in l1 && '/' !in l2
    requires l1 != l2 || d1 != d2
    ensures l1 + "/" + d1 != l2 + "/" + d2
  {
    var s1, s2 := l1 + "/" + d1, l2 + "/" + d2;
    if l1 == l2 {
      assert s1[|l1| + 1..] == d1;
      assert s2[|l2| + 1..] == d2;
    } else {
      SegmentSplit(l1, d1);
      SegmentSplit(l2, d2);
      assert Split(s1, '/')[0] == l1;
      assert Split(s2, '/')[0] == l2;
    }
  }

  /** A one-segment string is never a path `l/d`. */
  lemma SegmentIsNoPath(l: string, l2: string, d: string)
    requires '/' !in l
    ensures l != l2 + "/" + d
  {
    assert (l2 + "/" + d)[|l2|] == '/';
  }

  /** Different slug keys give different documentation paths. */
  lemma DocsPathInjective(k1: string, k2: string)
    requires k1 != k2
    ensures DocsPath(k1) != DocsPath(k2)
  {
    if k1 != "" && k2 != "" {
      assert DocsPath(k1)[5..] == k1;
      assert DocsPath(k2)[5..] == k2;
    } else {
      assert |DocsPath(k1)| != |DocsPath(k2)|;
    }
  }

  // ---------------------------------------------------------------- entry URLs

  /** A root entry's URL is `origin/<lang>`, before and after the back-fill. */
  lemma RootUrl(origin: string, config: I18nConfig, ps: seq<LangPage>, i: nat)
    requires i < |config.languages|
    ensures |Backfilled(origin, RootEntries(origin, config), ps)| == |config.languages|
    ensures Backfilled(origin, RootEntries(origin, config), ps)[i].url == (origin + "/") + config.languages[i]
  {
    LocalePathOfRoot(config.languages[i]);
  }

  /** A documentation entry's URL is `origin/<lang>/<docsPath>`. */
  lemma DocEntryUrl(origin: string, config: I18nConfig, lp: LangPage, langs: seq<string>, key: string)
    ensures DocEntry(origin, config, lp, langs, DocsPath(key)).url == (origin + "/") + (lp.lang + "/" + DocsPath(key))
  {
    var path := DocsPath(key);
    assert path[0] == 'd' && path[..1] == [path[0]];
    LocalePathOfPage(lp.lang, path);
    assert origin + ("/" + lp.lang + "/" + path) == (origin + "/") + (lp.lang + "/" + path);
  }

  /** An entry of the group of `key` is the entry of one of its pages. */
  lemma GroupEntryUrl(origin: string, config: I18nConfig, ps: seq<LangPage>, key: string, y: SitemapEntry)
    requires y in GroupEntriesOf(origin, config, ps)(key)
    ensures exists lp :: lp in ps && y.url == (origin + "/") + (lp.lang + "/" + DocsPath(key))
  {
    var group := Group(ps, key);
    var f := DocEntryOf(origin, config, AvailableLangs(group), DocsPath(key));
    MapSeqFrom(group, f, y);
    var lp :| lp in group && y == f(lp);
    GroupMembership(ps, key, lp);
    DocEntryUrl(origin, config, lp, AvailableLangs(group), key);
  }

  /** Without the uniqueness condition URLs do repeat: two pages of one language with the same slug key get the same URL. */
  lemma SharedKeySharesUrl(origin: string, config: I18nConfig, l: string, p1: Page, p2: Page, langs: seq<string>)
    requires SlugKey(p1) == SlugKey(p2)
    ensures DocEntry(origin, config, LangPage(l, p1), langs, DocsPath(SlugKey(p1))).url
            == DocEntry(origin, config, LangPage(l, p2), langs, DocsPath(SlugKey(p2))).url
  {
  }

  // ---------------------------------------------------------------- uniqueness of pages

  /** With distinct languages, each listing every slug key once, no (language, key) pair is visited twice. */
  lemma {:induction false} AllPagesUnique(langs: seq<string>, getPages: string -> seq<Page>)
    requires forall i, j :: 0 <= i < j < |langs| ==> langs[i] != langs[j]
    requires forall l, i, j :: l in langs && 0 <= i < j < |getPages(l)| ==> SlugKey(getPages(l)[i]) != SlugKey(getPages(l)[j])
    ensures UniqueLangKeys(AllPages(langs, getPages))
  {
    if langs != [] {
      var init, last := langs[..|langs| - 1], langs[|langs| - 1];
      assert forall k :: 0 <= k < |init| ==> init[k] == langs[k];
      AllPagesUnique(init, getPages);
      var pre: seq<LangPage>, post: seq<LangPage> := AllPages(init, getPages), Tagged(last, getPages(last));
      var ps := pre + post;
      assert last in langs;
      forall i, j | 0 <= i < j < |ps| ensures ps[i].lang != ps[j].lang || SlugKey(ps[i].page) != SlugKey(ps[j].page) {
        AppendAt(pre, post, i);
        AppendAt(pre, post, j);
        if i < |pre| && |pre| <= j {
          assert pre[i] in pre;
          AllPagesMembership(init, getPages, pre[i]);
          var k :| 0 <= k < |init| && init[k] == pre[i].lang;
          assert langs[k] != langs[|langs| - 1];
        }
      }
    }
  }

  /** Without a repeated (language, key) pair, the pages of one group have distinct languages. */
  lemma {:induction false} GroupLanguagesDistinct(ps: seq<LangPage>, key: string)
    requires UniqueLangKeys(ps)
    ensures forall i, j :: 0 <= i < j < |Group(ps, key)| ==> Group(ps, key)[i].lang != Group(ps, key)[j].lang
  {
    if ps != [] {
      var init, last := ps[..|ps| - 1], ps[|ps| - 1];
      assert forall k :: 0 <= k < |init| ==> init[k] == ps[k];
      GroupLanguagesDistinct(init, key);
      var pre := Group(init, key);
      if SlugKey(last.page) == key {
        forall i | 0 <= i < |pre| ensures pre[i].lang != last.lang {
          assert pre[i] in pre;
          GroupMembership(init, key, pre[i]);
          var k :| 0 <= k < |init| && init[k] == pre[i];
          assert ps[k] == pre[i];
        }
        var g := pre + [last];
        forall i, j | 0 <= i < j < |g| ensures g[i].lang != g[j].lang {
          AppendAt(pre, [last], i);
          AppendAt(pre, [last], j);
        }
      }
    }
  }

  // ---------------------------------------------------------------- distinct URLs

  /** The entries of one group have distinct URLs when its pages have distinct one-segment languages. */
  lemma GroupUrlsDistinct(origin: string, config: I18nConfig, ps: seq<LangPage>, key: string)
    requires forall x :: x in ps ==> '/' !in x.lang
    requires UniqueLangKeys(ps)
    ensures var es := GroupEntriesOf(origin, config, ps)(key);
            forall i, j :: 0 <= i < j < |es| ==> UrlOf(es[i]) != UrlOf(es[j])
  {
    var group := Group(ps, key);
    var langs, path := AvailableLangs(group), DocsPath(key);
    var es := PageEntries(origin, config, group, langs, path);
    GroupLanguagesDistinct(ps, key);
    PageEntriesLength(origin, config, group, langs, path);
    forall i, j | 0 <= i < j < |es| ensures UrlOf(es[i]) != UrlOf(es[j]) {
      PageEntriesAt(origin, config, group, langs, path, i);
      PageEntriesAt(origin, config, group, langs, path, j);
      DocEntryUrl(origin, config, group[i], langs, key);
      DocEntryUrl(origin, config, group[j], langs, key);
      GroupMembership(ps, key, group[i]);
      GroupMembership(ps, key, group[j]);
      SegmentPathsApart(group[i].lang, path, group[j].lang, path);
      PrefixCancel(origin + "/", group[i].lang + "/" + path, group[j].lang + "/" + path);
    }
  }

  /** Entries of two different groups have different URLs. */
  lemma GroupsUrlsApart(origin: string, config: I18nConfig, ps: seq<LangPage>, k1: string, k2: string, y1: SitemapEntry, y2: SitemapEntry)
    requires forall x :: x in ps ==> '/' !in x.lang
    requires k1 != k2 && y1 in GroupEntriesOf(origin, config, ps)(k1) && y2 in GroupEntriesOf(origin, config, ps)(k2)
    ensures UrlOf(y1) != UrlOf(y2)
  {
    GroupEntryUrl(origin, config, ps, k1, y1);
    GroupEntryUrl(origin, config, ps, k2, y2);
    var lp1 :| lp1 in ps && y1.url == (origin + "/") + (lp1.lang + "/" + DocsPath(k1));
    var lp2 :| lp2 in ps && y2.url == (origin + "/") + (lp2.lang + "/" + DocsPath(k2));
    DocsPathInjective(k1, k2);
    SegmentPathsApart(lp1.lang, DocsPath(k1), lp2.lang, DocsPath(k2));
    PrefixCancel(origin + "/", lp1.lang + "/" + DocsPath(k1), lp2.lang + "/" + DocsPath(k2));
  }

  /** The documentation entries have distinct URLs. */
  lemma DocUrlsDistinct(origin: string, config: I18nConfig, ps: seq<LangPage>)
    requires forall x :: x in ps ==> '/' !in x.lang
    requires UniqueLangKeys(ps)
    ensures DistinctUrls(DocEntries(origin, config, ps, GroupKeys(ps)))
  {
    var keys, f := GroupKeys(ps), GroupEntriesOf(origin, config, ps);
    GroupKeysDistinct(ps);
    forall x | x in keys ensures forall i, j :: 0 <= i < j < |f(x)| ==> UrlOf(f(x)[i]) != UrlOf(f(x)[j]) {
      GroupUrlsDistinct(origin, config, ps, x);
    }
    forall x1, x2, y1, y2 | x1 in keys && x2 in keys && x1 != x2 && y1 in f(x1) && y2 in f(x2) ensures UrlOf(y1) != UrlOf(y2) {
      GroupsUrlsApart(origin, config, ps, x1, x2, y1, y2);
    }
    FlatMapDistinctBy(keys, f, UrlOf);
  }

  /** A root URL is never a documentation URL. */
  lemma RootAndDocApart(origin: string, ps: seq<LangPage>, lang: string, docs: seq<SitemapEntry>, config: I18nConfig, j: nat)
    requires '/' !in lang && (forall x :: x in ps ==> '/' !in x.lang)
    requires docs == DocEntries(origin, config, ps, GroupKeys(ps)) && j < |docs|
    ensures (origin + "/") + lang != docs[j].url
  {
    var f := GroupEntriesOf(origin, config, ps);
    FlatMapFrom(GroupKeys(ps), f, j);
    var key :| key in GroupKeys(ps) && docs[j] in f(key);
    GroupEntryUrl(origin, config, ps, key, docs[j]);
    var lp :| lp in ps && docs[j].url == (origin + "/") + (lp.lang + "/" + DocsPath(key));
    SegmentIsNoPath(lang, lp.lang, DocsPath(key));
    PrefixCancel(origin + "/", lang, lp.lang + "/" + DocsPath(key));
  }

  /**
   * With a valid registry of one-segment languages, each listing every slug
   * key once, no two sitemap entries share a URL: in particular no
   * (language, slug key) pair has two entries.
   */
  lemma SitemapUrlsDistinct(origin: string, config: I18nConfig, getPages: string -> seq<Page>)
    requires ValidConfig(config) && SegmentLanguages(config) && UniqueSlugKeys(config, getPages)
    ensures DistinctUrls(SitemapOf(origin, config, getPages))
  {
    var langs := config.languages;
    var all := AllPages(langs, getPages);
    var roots := Backfilled(origin, RootEntries(origin, config), all);
    var docs := DocEntries(origin, config, all, GroupKeys(all));
    SitemapOfParts(origin, config, getPages);
    AllPagesUnique(langs, getPages);
    forall x | x in all ensures '/' !in x.lang {
      AllPagesMembership(langs, getPages, x);
    }
    DocUrlsDistinct(origin, config, all);
    var es := roots + docs;
    forall i, j | 0 <= i < j < |es| ensures es[i].url != es[j].url {
      AppendAt(roots, docs, i);
      AppendAt(roots, docs, j);
      if j < |roots| {
        RootUrl(origin, config, all, i);
        RootUrl(origin, config, all, j);
        PrefixCancel(origin + "/", langs[i], langs[j]);
      } else if i < |roots| {
        RootUrl(origin, config, all, i);
        assert langs[i] in langs;
        RootAndDocApart(origin, all, langs[i], docs, config, j - |roots|);
      }
    }
  }
}
