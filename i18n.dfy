/**
 * The locale registry and the locale path builder of the site: every
 * user-facing path has the form `/<lang>` or `/<lang>/<rest>`.
 */
module I18n {
  import opened JsStrings

  /** The registry: the default language and the supported languages, in order. */
  datatype I18nConfig = I18nConfig(defaultLanguage: string, languages: seq<string>)

  /** The registry the site ships with. */
  const I18N: I18nConfig := I18nConfig("en-US", ["en-US", "zh-CN"])

  /** The registry invariant: some language, no language twice, and the default among them. */
  predicate ValidConfig(config: I18nConfig) {
    && |config.languages| > 0
    && (forall i, j :: 0 <= i < j < |config.languages| ==> config.languages[i] != config.languages[j])
    && config.defaultLanguage in config.languages
  }

  /** Every language tag is a single, non-empty path segment. */
  predicate SegmentLanguages(config: I18nConfig) {
    forall l :: l in config.languages ==> l != "" && '/' !in l
  }

  lemma ShippedConfigIsValid()
    ensures ValidConfig(I18N) && SegmentLanguages(I18N)
  {
    assert I18N.languages[0] != I18N.languages[1] by {
      assert I18N.languages[0][0] == 'e' && I18N.languages[1][0] == 'z';
    }
  }

  /** The path with at most one leading `/` removed. */
  function CleanPath(path: string): (r: string)
    ensures r == path || "/" + r == path
  {
    if StartsWith(path, "/") then path[1..] else path
  }

  /** The routing convention: `path` is under language `lang`. */
  predicate IsLocalePrefixed(path: string, lang: string) {
    StartsWith(path, "/" + lang + "/") || path == "/" + lang
  }

  /** `getLocalePath(lang, path)`: the path of `path` under language `lang`. */
  function LocalePath(lang: string, path: string): (r: string)
    ensures IsLocalePrefixed(r, lang)
  {
    var cleanPath := CleanPath(path);
    if cleanPath != "" then "/" + lang + "/" + cleanPath else "/" + lang
  }

  /** Both the empty path and `/` give the language root. */
  lemma LocalePathOfRoot(lang: string)
    ensures LocalePath(lang, "") == "/" + lang
    ensures LocalePath(lang, "/") == "/" + lang
  {
  }

  /** A non-empty cleaned path is appended after `/<lang>/`. */
  lemma LocalePathOfPage(lang: string, path: string)
    requires CleanPath(path) != ""
    ensures LocalePath(lang, path) == "/" + lang + "/" + CleanPath(path)
  {
  }

  /** Exactly one leading `/` is stripped: a path and its `/`-prefixed form give the same result. */
  lemma LocalePathStripsOneSlash(lang: string, p: string)
    requires !StartsWith(p, "/")
    ensures LocalePath(lang, "/" + p) == LocalePath(lang, p)
  {
    assert ("/" + p)[1..] == p;
  }

  /** ... and only one: `//x` keeps its second slash. */
  lemma LocalePathKeepsSecondSlash(lang: string, p: string)
    ensures LocalePath(lang, "//" + p) == "/" + lang + "//" + p
  {
    assert ("//" + p)[1..] == "/" + p;
  }

  /** Within one language, two paths give the same locale path exactly when their cleaned forms agree. */
  lemma LocalePathInjective(lang: string, p: string, q: string)
    ensures LocalePath(lang, p) == LocalePath(lang, q) <==> CleanPath(p) == CleanPath(q)
  {
    var cp, cq := CleanPath(p), CleanPath(q);
    var n := |lang| + 2;
    if LocalePath(lang, p) == LocalePath(lang, q) {
      if cp != "" && cq != "" {
        assert LocalePath(lang, p)[n..] == cp;
        assert LocalePath(lang, q)[n..] == cq;
      } else {
        assert |LocalePath(lang, p)| == n - 1 + (if cp == "" then 0 else 1 + |cp|);
        assert |LocalePath(lang, q)| == n - 1 + (if cq == "" then 0 else 1 + |cq|);
      }
    }
  }
}
