/**
 * What the sitemap promises, proved about the specification functions of
 * `SitemapSpec`: entry count, root entries, alternates, grouping order and
 * timestamps.
 */
module SitemapProperties {
  import opened Wrappers
  import opened JsStrings
  import opened I18n
  import opened SitemapSpec
  import opened Seqs

  // ---------------------------------------------------------------- alternates

  /**
   * For languages that are non-empty and not `x-default` itself, the
   * alternates are keyed by exactly those languages, plus `x-default` when
   * there is at least one; `x-default` points to the default language when it
   * is among them and otherwise to the first.
   */
  lemma AlternatesCover(origin: string, config: I18nConfig, langs: seq<string>, path: string)
    requires forall l :: l in langs ==> l != "" && l != XDefault
    ensures var r := Alternates(origin, config, langs, path);
            && (forall k :: k in r <==> k in langs || (k == XDefault && |langs| > 0))
            && (forall l :: l in langs ==> r[l] == origin + LocalePath(l, path))
            && (|langs| > 0 ==> r[XDefault] == origin + LocalePath(if config.defaultLanguage in langs then config.defaultLanguage else langs[0], path))
  {
    if |langs| > 0 {
      assert langs[0] in langs;
    }
  }

  /** No languages, no alternates at all. */
  lemma NoLanguagesNoAlternates(origin: string, config: I18nConfig, path: string)
    ensures Alternates(origin, config, [], path) == map[]
  {
  }

  /** A chosen language that is the empty string is falsy: no `x-default` is added for it. */
  lemma EmptyLanguageGetsNoXDefault(origin: string, config: I18nConfig, path: string)
    requires config.defaultLanguage != ""
    ensures XDefault !in Alternates(origin, config, [""], path)
  {
  }

  // ---------------------------------------------------------------- pages

  /** A tagged page is in `AllPages` exactly when its language is listed and the source returns the page for it. */
  lemma {:induction false} AllPagesMembership(langs: seq<string>, getPages: string -> seq<Page>, x: LangPage)
    ensures x in AllPages(langs, getPages) <==> x.lang in langs && x.page in getPages(x.lang)
  {
    if langs != [] {
      var init, lang := langs[..|langs| - 1], langs[|langs| - 1];
      AllPagesMembership(init, getPages, x);
      assert langs == init + [lang];
      var tagged := Tagged(lang, getPages(lang));
      if x in tagged {
        var k :| 0 <= k < |tagged| && tagged[k] == x;
      }
      if x.lang == lang && x.page in getPages(lang) {
        var k :| 0 <= k < |getPages(lang)| && getPages(lang)[k] == x.page;
        assert tagged[k] == x;
      }
    }
  }

  // ---------------------------------------------------------------- grouping

  /** The definitions of the grouping functions, one page further. */
  lemma GroupingStep(ps: seq<LangPage>, x: LangPage)
    ensures GroupKeys(ps + [x]) == (if SlugKey(x.page) in GroupKeys(ps) then GroupKeys(ps) else GroupKeys(ps) + [SlugKey(x.page)])
    ensures forall k :: Group(ps + [x], k) == Group(ps, k) + (if SlugKey(x.page) == k then [x] else [])
    ensures forall l :: Latest(ps + [x], l) == LatestStep(Latest(ps, l), x, l)
  {
    assert (ps + [x])[..|ps|] == ps;
  }

  /** No page of `ps` has a key that never became a group. */
  lemma {:induction false} GroupOfAbsentKey(ps: seq<LangPage>, key: string)
    requires key !in GroupKeys(ps)
    ensures Group(ps, key) == []
  {
    if ps != [] {
      var init := ps[..|ps| - 1];
      assert key !in GroupKeys(init) && SlugKey(ps[|ps| - 1].page) != key;
      GroupOfAbsentKey(init, key);
    }
  }


  /** A slug key is a group key exactly when some page has it. */
  lemma {:induction false} GroupKeysMembership(ps: seq<LangPage>, key: string)
    ensures key in GroupKeys(ps) <==> exists i :: 0 <= i < |ps| && SlugKey(ps[i].page) == key
  {
    if ps != [] {
      var init := ps[..|ps| - 1];
      GroupKeysMembership(init, key);
      assert forall i :: 0 <= i < |init| ==> init[i] == ps[i];
    }
  }

  predicate Distinct(keys: seq<string>) {
    forall i, j :: 0 <= i < j < |keys| ==> keys[i] != keys[j]
  }

  /** `pagesBySlug` has each key once. */
  lemma {:induction false} GroupKeysDistinct(ps: seq<LangPage>)
    ensures Distinct(GroupKeys(ps))
  {
    if ps != [] {
      GroupKeysDistinct(ps[..|ps| - 1]);
    }
  }

  /**
   * Keys are in order of first appearance: every page whose key comes later
   * is preceded by a page with each earlier key.
   */
  lemma {:induction false} GroupKeysInFirstAppearanceOrder(ps: seq<LangPage>, a: nat, b: nat, y: nat)
    requires a < b < |GroupKeys(ps)|
    requires y < |ps| && SlugKey(ps[y].page) == GroupKeys(ps)[b]
    ensures exists x :: 0 <= x < y && SlugKey(ps[x].page) == GroupKeys(ps)[a]
  {
    var init, last := ps[..|ps| - 1], ps[|ps| - 1];
    var ks, kx := GroupKeys(init), SlugKey(last.page);
    assert forall i :: 0 <= i < |init| ==> init[i] == ps[i];
    if y < |init| {
      if b < |ks| {
        assert GroupKeys(ps)[a] == ks[a] && GroupKeys(ps)[b] == ks[b];
        GroupKeysInFirstAppearanceOrder(init, a, b, y);
      } else {
        assert kx !in ks && GroupKeys(ps)[b] == kx;
        GroupKeysMembership(init, kx);
        assert false;
      }
    } else if kx in ks {
      GroupKeysMembership(init, kx);
      var y' :| 0 <= y' < |init| && SlugKey(init[y'].page) == kx;
      GroupKeysInFirstAppearanceOrder(init, a, b, y');
    } else {
      assert b == |ks|;
      assert GroupKeys(ps)[a] == ks[a] && ks[a] in ks;
      GroupKeysMembership(init, ks[a]);
    }
  }

  /** A group holds exactly the pages with its key. */
  lemma {:induction false} GroupMembership(ps: seq<LangPage>, key: string, x: LangPage)
    ensures x in Group(ps, key) <==> x in ps && SlugKey(x.page) == key
  {
    if ps != [] {
      var init := ps[..|ps| - 1];
      GroupMembership(init, key, x);
      assert ps == init + [ps[|ps| - 1]];
    }
  }

  /**
   * The languages of a group of the whole sitemap are exactly the registry
   * languages whose source has a page with that key: no language is
   * invented for an untranslated page.
   */
  lemma GroupLanguages(langs: seq<string>, getPages: string -> seq<Page>, key: string, l: string)
    ensures var group := Group(AllPages(langs, getPages), key);
            l in AvailableLangs(group) <==> l in langs && exists p :: p in getPages(l) && SlugKey(p) == key
  {
    var all := AllPages(langs, getPages);
    var group := Group(all, key);
    if l in AvailableLangs(group) {
      var i :| 0 <= i < |group| && AvailableLangs(group)[i] == l;
      GroupMembership(all, key, group[i]);
      AllPagesMembership(langs, getPages, group[i]);
    }
    if l in langs && exists p :: p in getPages(l) && SlugKey(p) == key {
      var p :| p in getPages(l) && SlugKey(p) == key;
      AllPagesMembership(langs, getPages, LangPage(l, p));
      GroupMembership(all, key, LangPage(l, p));
      var i :| 0 <= i < |group| && group[i] == LangPage(l, p);
      assert AvailableLangs(group)[i] == l;
    }
  }

  // ---------------------------------------------------------------- timestamps

  /** `latestModifiedByLang` holds, for each language, the maximum of its pages' timestamps, and nothing when it has none. */
  lemma {:induction false} LatestIsMaximum(ps: seq<LangPage>, lang: string)
    ensures Latest(ps, lang).None? <==> forall i :: 0 <= i < |ps| && ps[i].lang == lang ==> ps[i].page.lastModified.None?
    ensures Latest(ps, lang).Some? ==>
              exists i :: 0 <= i < |ps| && ps[i].lang == lang && ps[i].page.lastModified == Latest(ps, lang)
    ensures Latest(ps, lang).Some? ==>
              forall i :: 0 <= i < |ps| && ps[i].lang == lang && ps[i].page.lastModified.Some? ==>
                ps[i].page.lastModified.value <= Latest(ps, lang).value
  {
    if ps != [] {
      var init := ps[..|ps| - 1];
      LatestIsMaximum(init, lang);
      assert forall i :: 0 <= i < |init| ==> init[i] == ps[i];
      if Latest(ps, lang) == Latest(init, lang) && Latest(init, lang).Some? {
        var i :| 0 <= i < |init| && init[i].lang == lang && init[i].page.lastModified == Latest(init, lang);
        assert ps[i].page.lastModified == Latest(ps, lang);
      }
    }
  }

  // ---------------------------------------------------------------- the entry count

  /** The number of pages in the groups `keys`. */
  function SumGroupSizes(ps: seq<LangPage>, keys: seq<string>): nat
    decreases |keys|
  {
    if keys == [] then 0
    else SumGroupSizes(ps, keys[..|keys| - 1]) + |Group(ps, keys[|keys| - 1])|
  }

  lemma {:induction false} SumGroupSizesStep(ps: seq<LangPage>, x: LangPage, keys: seq<string>)
    requires Distinct(keys)
    ensures SumGroupSizes(ps + [x], keys) == SumGroupSizes(ps, keys) + (if SlugKey(x.page) in keys then 1 else 0)
  {
    GroupingStep(ps, x);
    if keys != [] {
      var init, last := keys[..|keys| - 1], keys[|keys| - 1];
      assert keys == init + [last];
      SumGroupSizesStep(ps, x, init);
      assert last !in init;
    }
  }

  /** Every page is in exactly one group. */
  lemma {:induction false} GroupSizesSum(ps: seq<LangPage>)
    ensures SumGroupSizes(ps, GroupKeys(ps)) == |ps|
  {
    if ps != [] {
      var init, x := ps[..|ps| - 1], ps[|ps| - 1];
      var ks, kx := GroupKeys(init), SlugKey(x.page);
      assert ps == init + [x];
      GroupSizesSum(init);
      GroupKeysDistinct(init);
      GroupingStep(init, x);
      SumGroupSizesStep(init, x, ks);
      if kx !in ks {
        assert (ks + [kx])[..|ks|] == ks;
        GroupOfAbsentKey(init, kx);
      }
    }
  }

  lemma {:induction false} DocEntriesLength(origin: string, config: I18nConfig, ps: seq<LangPage>, keys: seq<string>)
    ensures |DocEntries(origin, config, ps, keys)| == SumGroupSizes(ps, keys)
  {
    if keys != [] {
      DocEntriesLength(origin, config, ps, keys[..|keys| - 1]);
      var group := Group(ps, keys[|keys| - 1]);
      PageEntriesLength(origin, config, group, AvailableLangs(group), DocsPath(keys[|keys| - 1]));
    }
  }

  /** The sitemap has one entry per language and one per (language, page). */
  lemma SitemapLength(origin: string, config: I18nConfig, getPages: string -> seq<Page>)
    ensures |SitemapOf(origin, config, getPages)| == |config.languages| + |AllPages(config.languages, getPages)|
  {
    var all := AllPages(config.languages, getPages);
    DocEntriesLength(origin, config, all, GroupKeys(all));
    GroupSizesSum(all);
  }

  // ---------------------------------------------------------------- root entries

  /** The back-fill recovers a language from its root URL when the language is one path segment. */
  lemma RootKeyOfLanguage(origin: string, lang: string)
    requires lang != "" && '/' !in lang
    ensures RootKey(origin, origin + LocalePath(lang, "")) == Some(lang)
  {
    var path := "/" + lang;
    LocalePathOfRoot(lang);
    ReplacePrefix(origin, path);
    assert ReplaceFirst(origin + LocalePath(lang, ""), origin, "") == path;
    assert path == "" + ['/'] + lang;
    SplitAtSeparator("", '/', lang);
    SplitNoSeparator(lang, '/');
    assert Split(path, '/') == ["", lang];
    assert ["", lang][1..] == [lang];
    assert FirstNonEmpty(["", lang]) == Some(lang);
  }

  /**
   * The first entries are the root entries, one per language in registry
   * order: URL `origin/<lang>`, daily, priority 1.0, alternates over every
   * language, and the latest timestamp among that language's pages.
   */
  lemma RootEntryOf(origin: string, config: I18nConfig, getPages: string -> seq<Page>, i: nat)
    requires i < |config.languages| && SegmentLanguages(config)
    ensures var e, lang := SitemapOf(origin, config, getPages)[i], config.languages[i];
            && e.url == origin + "/" + lang
            && e.changeFrequency == Daily
            && e.priority == 10
            && e.alternates == Alternates(origin, config, config.languages, "")
            && e.lastModified == Latest(AllPages(config.languages, getPages), lang)
  {
    var lang := config.languages[i];
    assert lang in config.languages;
    SitemapStartsWithRoots(origin, config, getPages, i);
    BackfillRoot(origin, config, lang, AllPages(config.languages, getPages));
    LocalePathOfRoot(lang);
  }

  /** The back-fill gives a root entry its language's latest timestamp, or leaves it without one. */
  lemma BackfillRoot(origin: string, config: I18nConfig, lang: string, ps: seq<LangPage>)
    requires lang != "" && '/' !in lang
    ensures BackfillEntry(origin, RootEntry(origin, config, lang), ps) == RootEntry(origin, config, lang).(lastModified := Latest(ps, lang))
  {
    RootKeyOfLanguage(origin, lang);
  }

  /** The sitemap is the back-filled root entries, one per language, followed by the documentation entries. */
  lemma SitemapOfParts(origin: string, config: I18nConfig, getPages: string -> seq<Page>)
    ensures var all := AllPages(config.languages, getPages);
            var roots := Backfilled(origin, RootEntries(origin, config), all);
            && SitemapOf(origin, config, getPages) == roots + DocEntries(origin, config, all, GroupKeys(all))
            && |roots| == |config.languages|
  {
  }

  /** The `i`-th sitemap entry is the back-filled root entry of the `i`-th language. */
  lemma SitemapStartsWithRoots(origin: string, config: I18nConfig, getPages: string -> seq<Page>, i: nat)
    requires i < |config.languages|
    ensures |SitemapOf(origin, config, getPages)| > i
    ensures SitemapOf(origin, config, getPages)[i]
            == BackfillEntry(origin, RootEntry(origin, config, config.languages[i]), AllPages(config.languages, getPages))
  {
    var all := AllPages(config.languages, getPages);
    var roots := Backfilled(origin, RootEntries(origin, config), all);
    SitemapOfParts(origin, config, getPages);
    AppendAt(roots, DocEntries(origin, config, all, GroupKeys(all)), i);
  }

  /** The shipped registry meets what the sitemap lemmas ask of a registry, `x-default` not being a language included. */
  lemma ShippedConfigFitsSitemap()
    ensures ValidConfig(I18N) && SegmentLanguages(I18N) && XDefault !in I18N.languages
  {
    ShippedConfigIsValid();
    assert XDefault[0] == 'x' && I18N.languages[0][0] == 'e' && I18N.languages[1][0] == 'z';
  }

  /** With a valid registry, a root entry's alternates are every language's root plus `x-default`, the default language's root. */
  lemma RootAlternates(origin: string, config: I18nConfig)
    requires ValidConfig(config) && SegmentLanguages(config) && XDefault !in config.languages
    ensures var r := Alternates(origin, config, config.languages, "");
            && (forall k :: k in r <==> k in config.languages || k == XDefault)
            && (forall l :: l in config.languages ==> r[l] == origin + "/" + l)
            && r[XDefault] == origin + "/" + config.defaultLanguage
  {
    AlternatesCover(origin, config, config.languages, "");
    forall l | l in config.languages ensures LocalePath(l, "") == "/" + l {
      LocalePathOfRoot(l);
    }
    LocalePathOfRoot(config.defaultLanguage);
  }

  // ---------------------------------------------------------------- documentation entries

  /** A documentation URL: `origin/<lang>/docs`, followed by `/<key>` for a non-empty key. */
  lemma DocUrl(origin: string, lang: string, key: string)
    ensures origin + LocalePath(lang, DocsPath(key)) == origin + "/" + lang + "/docs" + (if key == "" then "" else "/" + key)
  {
    var path := DocsPath(key);
    if key == "" {
      assert path[0] == 'd' && path[..1] == [path[0]];
      LocalePathOfPage(lang, path);
    } else {
      assert path[0] == 'd' && path[..1] == [path[0]];
      LocalePathOfPage(lang, path);
      assert "/" + lang + "/" + path == "/" + lang + "/docs" + ("/" + key);
    }
  }

  /** Priority by depth: 0.9 at depth 1, 0.8 at depth 2, 0.7 at every other depth, 0 included. */
  lemma PriorityByDepth(depth: nat)
    ensures depth == 1 ==> Priority(depth) == 9
    ensures depth == 2 ==> Priority(depth) == 8
    ensures depth != 1 && depth != 2 ==> Priority(depth) == 7
  {
  }

  /** Below the docs index, priority never increases with depth. */
  lemma PriorityNonIncreasing(d1: nat, d2: nat)
    requires 1 <= d1 <= d2
    ensures Priority(d2) <= Priority(d1)
  {
  }

  /** One entry per page. */
  lemma PageEntriesLength(origin: string, config: I18nConfig, pages: seq<LangPage>, langs: seq<string>, docsPath: string)
    ensures |PageEntries(origin, config, pages, langs, docsPath)| == |pages|
  {
    MapSeqAt(pages, DocEntryOf(origin, config, langs, docsPath), 0);
  }

  /** The `i`-th entry is the entry of the `i`-th page. */
  lemma PageEntriesAt(origin: string, config: I18nConfig, pages: seq<LangPage>, langs: seq<string>, docsPath: string, i: nat)
    requires i < |pages|
    ensures |PageEntries(origin, config, pages, langs, docsPath)| == |pages|
    ensures PageEntries(origin, config, pages, langs, docsPath)[i] == DocEntry(origin, config, pages[i], langs, docsPath)
  {
    MapSeqAt(pages, DocEntryOf(origin, config, langs, docsPath), i);
  }

  /** Every entry of the groups `keys` is the entry of some page of `ps`, with that page's group and key. */
  lemma DocEntriesAreDocEntries(origin: string, config: I18nConfig, ps: seq<LangPage>, keys: seq<string>, j: nat)
    requires j < |DocEntries(origin, config, ps, keys)|
    ensures exists lp :: lp in ps && DocEntries(origin, config, ps, keys)[j] ==
              DocEntry(origin, config, lp, AvailableLangs(Group(ps, SlugKey(lp.page))), DocsPath(SlugKey(lp.page)))
  {
    var f := GroupEntriesOf(origin, config, ps);
    var e := DocEntries(origin, config, ps, keys)[j];
    FlatMapFrom(keys, f, j);
    var key :| key in keys && e in f(key);
    var group := Group(ps, key);
    MapSeqFrom(group, DocEntryOf(origin, config, AvailableLangs(group), DocsPath(key)), e);
    var lp :| lp in group && e == DocEntryOf(origin, config, AvailableLangs(group), DocsPath(key))(lp);
    GroupMembership(ps, key, lp);
  }

  /** Each entry after the root entries is the entry of one page of one registry language. */
  lemma SitemapDocEntry(origin: string, config: I18nConfig, getPages: string -> seq<Page>, j: nat)
    requires |config.languages| <= j < |SitemapOf(origin, config, getPages)|
    ensures var all := AllPages(config.languages, getPages);
            exists l, p :: l in config.languages && p in getPages(l) && SitemapOf(origin, config, getPages)[j] ==
              DocEntry(origin, config, LangPage(l, p), AvailableLangs(Group(all, SlugKey(p))), DocsPath(SlugKey(p)))
  {
    var all := AllPages(config.languages, getPages);
    var roots := Backfilled(origin, RootEntries(origin, config), all);
    var docs := DocEntries(origin, config, all, GroupKeys(all));
    SitemapOfParts(origin, config, getPages);
    AppendAt(roots, docs, j);
    DocEntriesAreDocEntries(origin, config, all, GroupKeys(all), j - |roots|);
    var lp :| lp in all && docs[j - |roots|] ==
      DocEntry(origin, config, lp, AvailableLangs(Group(all, SlugKey(lp.page))), DocsPath(SlugKey(lp.page)));
    AllPagesMembership(config.languages, getPages, lp);
    var l, p := lp.lang, lp.page;
    assert lp == LangPage(l, p);
    assert l in config.languages && p in getPages(l);
  }

  /** A group's entries include the entry of each of its pages. */
  lemma GroupEntriesHoldPage(origin: string, config: I18nConfig, group: seq<LangPage>, key: string, lp: LangPage)
    requires lp in group
    ensures DocEntry(origin, config, lp, AvailableLangs(group), DocsPath(key)) in GroupEntries(origin, config, group, key)
  {
    var i :| 0 <= i < |group| && group[i] == lp;
    PageEntriesAt(origin, config, group, AvailableLangs(group), DocsPath(key), i);
    var entries := GroupEntries(origin, config, group, key);
    assert entries[i] in entries;
  }

  /** The entries of the groups `keys` include the entry of every page of every one of those groups. */
  lemma DocEntriesHoldGroups(origin: string, config: I18nConfig, ps: seq<LangPage>, keys: seq<string>, key: string, lp: LangPage)
    requires key in keys && lp in Group(ps, key)
    ensures DocEntry(origin, config, lp, AvailableLangs(Group(ps, key)), DocsPath(key)) in DocEntries(origin, config, ps, keys)
  {
    GroupEntriesHoldPage(origin, config, Group(ps, key), key, lp);
    FlatMapHolds(keys, GroupEntriesOf(origin, config, ps), key,
                 DocEntry(origin, config, lp, AvailableLangs(Group(ps, key)), DocsPath(key)));
  }

  /** Every page of every registry language gets its entry. */
  lemma EveryPageHasAnEntry(origin: string, config: I18nConfig, getPages: string -> seq<Page>, l: string, p: Page)
    requires l in config.languages && p in getPages(l)
    ensures var all := AllPages(config.languages, getPages);
            DocEntry(origin, config, LangPage(l, p), AvailableLangs(Group(all, SlugKey(p))), DocsPath(SlugKey(p)))
              in SitemapOf(origin, config, getPages)
  {
    var all := AllPages(config.languages, getPages);
    var lp := LangPage(l, p);
    AllPagesMembership(config.languages, getPages, lp);
    var t :| 0 <= t < |all| && all[t] == lp;
    GroupKeysMembership(all, SlugKey(p));
    GroupMembership(all, SlugKey(p), lp);
    DocEntriesHoldGroups(origin, config, all, GroupKeys(all), SlugKey(p), lp);
  }

  /**
   * A documentation entry's alternates name, besides `x-default`, exactly the
   * registry languages that have a page with the same slug key.
   */
  lemma DocAlternatesAreTranslations(origin: string, config: I18nConfig, getPages: string -> seq<Page>, key: string, k: string)
    requires SegmentLanguages(config) && XDefault !in config.languages && k != XDefault
    ensures var group := Group(AllPages(config.languages, getPages), key);
            (k in Alternates(origin, config, AvailableLangs(group), DocsPath(key)))
              <==> (k in config.languages && exists p :: p in getPages(k) && SlugKey(p) == key)
  {
    var group := Group(AllPages(config.languages, getPages), key);
    var avail := AvailableLangs(group);
    forall l | l in avail ensures l != "" && l != XDefault {
      GroupLanguages(config.languages, getPages, key, l);
    }
    AlternatesCover(origin, config, avail, DocsPath(key));
    GroupLanguages(config.languages, getPages, key, k);
  }
}
