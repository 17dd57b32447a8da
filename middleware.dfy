/**
 * The request middleware: every path that does not start with a supported
 * language is redirected to the same path under the language negotiated from
 * the `Accept-Language` header.
 */
module Middleware {
  import opened Wrappers
  import opened JsStrings
  import opened I18n

  // ---------------------------------------------------------------- parsing the header

  /** One entry of the header: a tag and its quality. */
  datatype Candidate = Candidate(tag: string, quality: real)

  /**
   * The text handed to `parseFloat` for the quality part `q` of an entry:
   * `q.split('=')[1]`, or `"undefined"` (what `parseFloat(undefined)` reads)
   * when `q` holds no `=`.
   */
  function QualityText(q: string): string {
    var kv := Split(q, '=');
    if |kv| >= 2 then kv[1] else "undefined"
  }

  /**
   * One comma-separated entry: the trimmed text before the first `;` is the
   * tag; the piece after it, when present and non-empty, is parsed as the
   * quality; otherwise the quality is 1.0.
   */
  function ParseEntry(entry: string, parseFloat: string -> real): Candidate {
    var parts := Split(entry, ';');
    var quality := if |parts| >= 2 && parts[1] != "" then parseFloat(QualityText(parts[1])) else 1.0;
    Candidate(Trim(parts[0]), quality)
  }

  /** An entry without a `;` part is its trimmed self with quality 1.0. */
  lemma ParseEntryWithoutQuality(entry: string, parseFloat: string -> real)
    requires ';' !in entry
    ensures ParseEntry(entry, parseFloat) == Candidate(Trim(entry), 1.0)
  {
    SplitNoSeparator(entry, ';');
  }

  lemma QualityTextOf(v: string)
    requires '=' !in v
    ensures QualityText("q=" + v) == v
  {
    assert "q=" + v == "q" + ['='] + v;
    SplitNoSeparator(v, '=');
    SplitAtSeparator("q", '=', v);
  }

  /** An entry `tag;q=v` has the trimmed tag and the quality `parseFloat(v)`. */
  lemma ParseEntryWithQuality(tag: string, v: string, parseFloat: string -> real)
    requires ';' !in tag && ';' !in v && '=' !in v
    ensures ParseEntry(tag + ";q=" + v, parseFloat) == Candidate(Trim(tag), parseFloat(v))
  {
    var rest := "q=" + v;
    assert ';' !in rest by {
      forall k | 0 <= k < |rest| ensures rest[k] != ';' {
        if k >= 2 { assert rest[k] == v[k - 2]; }
      }
    }
    assert tag + ";q=" + v == tag + [';'] + rest;
    SplitTwo(tag, ';', rest);
    QualityTextOf(v);
  }

  /** `acceptLanguage.split(',').map(...)`: the entries of the header, in header order. */
  function ParseHeader(header: string, parseFloat: string -> real): seq<Candidate> {
    var entries := Split(header, ',');
    seq(|entries|, i requires 0 <= i < |entries| => ParseEntry(entries[i], parseFloat))
  }

  // ---------------------------------------------------------------- the stable sort

  /** Descending quality. */
  predicate SortedByQuality(cs: seq<Candidate>) {
    forall i, j :: 0 <= i < j < |cs| ==> cs[i].quality >= cs[j].quality
  }

  /** The entries of quality `q`, in their order in `cs`. */
  function WithQuality(cs: seq<Candidate>, q: real): seq<Candidate> {
    if cs == [] then []
    else (if cs[0].quality == q then [cs[0]] else []) + WithQuality(cs[1..], q)
  }

  /** Places `c` before the first entry of `sorted` whose quality does not exceed its own. */
  function Insert(c: Candidate, sorted: seq<Candidate>): seq<Candidate> {
    if sorted == [] || sorted[0].quality <= c.quality then [c] + sorted
    else [sorted[0]] + Insert(c, sorted[1..])
  }

  /**
   * `.sort((a, b) => b.quality - a.quality)`: `Array.prototype.sort` is
   * stable, so this orders by descending quality and keeps the header order
   * among equal qualities.
   */
  function SortByQuality(cs: seq<Candidate>): seq<Candidate> {
    if cs == [] then [] else Insert(cs[0], SortByQuality(cs[1..]))
  }

  lemma {:induction false} InsertPermutes(c: Candidate, sorted: seq<Candidate>)
    ensures multiset(Insert(c, sorted)) == multiset([c] + sorted)
  {
    if !(sorted == [] || sorted[0].quality <= c.quality) {
      InsertPermutes(c, sorted[1..]);
      assert sorted == [sorted[0]] + sorted[1..];
    }
  }

  lemma {:induction false} InsertKeepsOrder(c: Candidate, sorted: seq<Candidate>)
    requires SortedByQuality(sorted)
    ensures SortedByQuality(Insert(c, sorted))
  {
    if !(sorted == [] || sorted[0].quality <= c.quality) {
      var tail := sorted[1..];
      assert SortedByQuality(tail) by {
        forall i, j | 0 <= i < j < |tail| ensures tail[i].quality >= tail[j].quality {
          assert tail[i] == sorted[i + 1] && tail[j] == sorted[j + 1];
        }
      }
      InsertKeepsOrder(c, tail);
      var ins := Insert(c, tail);
      var r := [sorted[0]] + ins;
      assert forall m :: 0 <= m < |tail| ==> tail[m] == sorted[m + 1];
      InsertStaysBelow(c, tail, sorted[0].quality);
      forall i, j | 0 <= i < j < |r| ensures r[i].quality >= r[j].quality {
        assert r[j] == ins[j - 1];
        if i > 0 { assert r[i] == ins[i - 1]; }
      }
    }
  }

  /** Inserting into entries of quality at most `bound` an entry of quality at most `bound` gives entries of quality at most `bound`. */
  lemma {:induction false} InsertStaysBelow(c: Candidate, s: seq<Candidate>, bound: real)
    requires c.quality <= bound && forall i :: 0 <= i < |s| ==> s[i].quality <= bound
    ensures forall k :: 0 <= k < |Insert(c, s)| ==> Insert(c, s)[k].quality <= bound
  {
    if !(s == [] || s[0].quality <= c.quality) {
      var tail := s[1..];
      assert forall i :: 0 <= i < |tail| ==> tail[i] == s[i + 1];
      InsertStaysBelow(c, tail, bound);
      var ins := Insert(c, tail);
      forall k | 0 <= k < |[s[0]] + ins| ensures ([s[0]] + ins)[k].quality <= bound {
        if k > 0 { assert ([s[0]] + ins)[k] == ins[k - 1]; }
      }
    } else {
      forall k | 0 <= k < |[c] + s| ensures ([c] + s)[k].quality <= bound {
        if k > 0 { assert ([c] + s)[k] == s[k - 1]; }
      }
    }
  }

  /** Inserting `c` in front of entries of higher quality keeps each quality's order. */
  lemma {:induction false} InsertIsStable(c: Candidate, sorted: seq<Candidate>, q: real)
    ensures WithQuality(Insert(c, sorted), q) == WithQuality([c] + sorted, q)
  {
    if sorted == [] || sorted[0].quality <= c.quality {
    } else {
      var tail := sorted[1..];
      InsertIsStable(c, tail, q);
      var ins := Insert(c, tail);
      assert ([sorted[0]] + ins)[1..] == ins;
      assert ([c] + sorted)[1..] == sorted;
      assert ([c] + tail)[1..] == tail;
      assert WithQuality(sorted, q) == (if sorted[0].quality == q then [sorted[0]] else []) + WithQuality(tail, q);
    }
  }

  /** The sort is a stable sort: ordered by descending quality, a permutation, and order-preserving within each quality. */
  lemma {:induction false} SortByQualityIsStableSort(cs: seq<Candidate>)
    ensures SortedByQuality(SortByQuality(cs))
    ensures multiset(SortByQuality(cs)) == multiset(cs)
    ensures forall q :: WithQuality(SortByQuality(cs), q) == WithQuality(cs, q)
  {
    if cs != [] {
      var rest := SortByQuality(cs[1..]);
      SortByQualityIsStableSort(cs[1..]);
      InsertKeepsOrder(cs[0], rest);
      InsertPermutes(cs[0], rest);
      assert cs == [cs[0]] + cs[1..];
      forall q ensures WithQuality(SortByQuality(cs), q) == WithQuality(cs, q) {
        InsertIsStable(cs[0], rest, q);
        assert ([cs[0]] + rest)[1..] == rest;
      }
    }
  }

  // ---------------------------------------------------------------- matching

  /** `languages.find(l => l.startsWith(base))`: the first registry language beginning with `base`. */
  function FindPrefixed(languages: seq<string>, base: string): (r: Option<string>)
    ensures r.Some? ==> exists i :: 0 <= i < |languages| && languages[i] == r.value && StartsWith(r.value, base)
                                     && forall j :: 0 <= j < i ==> !StartsWith(languages[j], base)
    ensures r.None? <==> forall j :: 0 <= j < |languages| ==> !StartsWith(languages[j], base)
  {
    if languages == [] then None
    else if StartsWith(languages[0], base) then Some(languages[0])
    else
      var r := FindPrefixed(languages[1..], base);
      assert forall j :: 1 <= j < |languages| ==> languages[j] == languages[1..][j - 1];
      if r.Some? then
        var i :| 0 <= i < |languages[1..]| && languages[1..][i] == r.value && StartsWith(r.value, base)
                 && forall j :: 0 <= j < i ==> !StartsWith(languages[1..][j], base);
        assert languages[i + 1] == r.value;
        r
      else r
  }

  /** The primary subtag: `tag.split('-')[0]`. */
  function BaseLanguage(tag: string): string {
    Split(tag, '-')[0]
  }

  /**
   * What one candidate tag selects: itself when it is supported, else the
   * first supported language beginning with its primary subtag (an empty
   * language found this way is falsy and selects nothing).
   */
  function MatchTag(config: I18nConfig, tag: string): (r: Option<string>)
    ensures r.Some? ==> r.value in config.languages
    ensures tag in config.languages ==> r == Some(tag)
  {
    if tag in config.languages then Some(tag)
    else
      var matched := FindPrefixed(config.languages, BaseLanguage(tag));
      if matched.Some? && matched.value != "" then matched else None
  }

  /** The `for` loop of `getLocale`: the match of the first candidate that has one, else the default. */
  function Negotiate(config: I18nConfig, cands: seq<Candidate>): (r: string)
    ensures r in config.languages || r == config.defaultLanguage
  {
    if cands == [] then config.defaultLanguage
    else
      match MatchTag(config, cands[0].tag)
      case Some(l) => l
      case None => Negotiate(config, cands[1..])
  }

  /** The candidates are tried in order: the first one that matches decides. */
  lemma {:induction false} NegotiateFirstMatch(config: I18nConfig, cands: seq<Candidate>, i: nat)
    requires i < |cands| && MatchTag(config, cands[i].tag).Some?
    requires forall j :: 0 <= j < i ==> MatchTag(config, cands[j].tag).None?
    ensures Negotiate(config, cands) == MatchTag(config, cands[i].tag).value
  {
    if i > 0 {
      assert MatchTag(config, cands[0].tag).None?;
      assert forall j :: 0 <= j < i - 1 ==> cands[1..][j] == cands[j + 1];
      NegotiateFirstMatch(config, cands[1..], i - 1);
    }
  }

  /** When no candidate matches, the result is the default language. */
  lemma {:induction false} NegotiateNoMatch(config: I18nConfig, cands: seq<Candidate>)
    requires forall j :: 0 <= j < |cands| ==> MatchTag(config, cands[j].tag).None?
    ensures Negotiate(config, cands) == config.defaultLanguage
  {
    if cands != [] {
      assert MatchTag(config, cands[0].tag).None?;
      assert forall j :: 0 <= j < |cands| - 1 ==> cands[1..][j] == cands[j + 1];
      NegotiateNoMatch(config, cands[1..]);
    }
  }

  /**
   * `getLocale(request)`: the default when the header is absent or empty,
   * else the negotiated language over the entries sorted by quality.
   */
  function GetLocale(config: I18nConfig, acceptLanguage: Option<string>, parseFloat: string -> real): (r: string)
    ensures acceptLanguage.None? || acceptLanguage == Some("") ==> r == config.defaultLanguage
    ensures r in config.languages || r == config.defaultLanguage
  {
    if acceptLanguage.None? || acceptLanguage.value == "" then config.defaultLanguage
    else Negotiate(config, SortByQuality(ParseHeader(acceptLanguage.value, parseFloat)))
  }

  /** With the default among the languages, negotiation always yields a supported language. */
  lemma GetLocaleIsSupported(config: I18nConfig, acceptLanguage: Option<string>, parseFloat: string -> real)
    requires config.defaultLanguage in config.languages
    ensures GetLocale(config, acceptLanguage, parseFloat) in config.languages
  {
  }

  /** A header that is exactly one supported tag selects that tag. */
  lemma GetLocaleOfSupportedTag(config: I18nConfig, lang: string, parseFloat: string -> real)
    requires lang in config.languages && lang != ""
    requires ',' !in lang && ';' !in lang
    requires !IsJsWhitespace(lang[0]) && !IsJsWhitespace(lang[|lang| - 1])
    ensures GetLocale(config, Some(lang), parseFloat) == lang
  {
    SplitNoSeparator(lang, ',');
    ParseEntryWithoutQuality(lang, parseFloat);
    TrimUntouched(lang);
    var cands := ParseHeader(lang, parseFloat);
    assert cands == [Candidate(lang, 1.0)];
    assert SortByQuality(cands) == Insert(cands[0], []) == cands;
    assert MatchTag(config, lang) == Some(lang);
  }

  /** A non-exact tag selects the first registry language that begins with its primary subtag. */
  lemma MatchTagByPrefix(config: I18nConfig, tag: string, i: nat)
    requires tag !in config.languages
    requires i < |config.languages| && config.languages[i] != ""
    requires StartsWith(config.languages[i], BaseLanguage(tag))
    requires forall j :: 0 <= j < i ==> !StartsWith(config.languages[j], BaseLanguage(tag))
    ensures MatchTag(config, tag) == Some(config.languages[i])
  {
    var m := FindPrefixed(config.languages, BaseLanguage(tag));
    var k :| 0 <= k < |config.languages| && config.languages[k] == m.value && StartsWith(m.value, BaseLanguage(tag))
             && forall j :: 0 <= j < k ==> !StartsWith(config.languages[j], BaseLanguage(tag));
    assert k == i;
  }

  /** An empty primary subtag (an entry such as `-x`, or an empty entry) matches the first registry language. */
  lemma EmptyBaseMatchesFirstLanguage(config: I18nConfig, tag: string)
    requires tag !in config.languages && BaseLanguage(tag) == ""
    requires |config.languages| > 0 && config.languages[0] != ""
    ensures MatchTag(config, tag) == Some(config.languages[0])
  {
    MatchTagByPrefix(config, tag, 0);
  }

  // ---------------------------------------------------------------- the redirect decision

  /** `pathnameIsMissingLocale`: no supported language prefixes the path. */
  predicate PathnameIsMissingLocale(config: I18nConfig, pathname: string) {
    forall l :: l in config.languages ==> !IsLocalePrefixed(pathname, l)
  }

  /** A request URL: the origin, the path and the query string (`search`) kept apart. */
  datatype Url = Url(origin: string, pathname: string, search: string)

  /** What the middleware answers: let the request through, or redirect it. */
  datatype Response = Next | Redirect(location: Url)

  /** The path redirected to: `/<locale>` followed by the path, where `/` counts as empty. */
  function RedirectPathname(locale: string, pathname: string): (r: string)
    ensures StartsWith(pathname, "/") ==> IsLocalePrefixed(r, locale)
  {
    var r := "/" + locale + (if pathname == "/" then "" else pathname);
    assert StartsWith(pathname, "/") && pathname != "/" ==> r[..|locale| + 2] == "/" + locale + "/";
    r
  }

  /** `middleware(request)`. */
  function HandleRequest(config: I18nConfig, url: Url, acceptLanguage: Option<string>, parseFloat: string -> real): (r: Response)
    ensures r.Next? <==> !PathnameIsMissingLocale(config, url.pathname)
    ensures r.Redirect? ==> && r.location.origin == url.origin
                            && r.location.search == url.search
                            && r.location.pathname == RedirectPathname(GetLocale(config, acceptLanguage, parseFloat), url.pathname)
  {
    if PathnameIsMissingLocale(config, url.pathname) then
      var locale := GetLocale(config, acceptLanguage, parseFloat);
      Redirect(url.(pathname := RedirectPathname(locale, url.pathname)))
    else Next
  }

  /** A path built by the locale path builder is never redirected. */
  lemma LocalePathIsNotMissingLocale(config: I18nConfig, lang: string, path: string)
    requires lang in config.languages
    ensures !PathnameIsMissingLocale(config, LocalePath(lang, path))
  {
  }

  /** The redirect is idempotent: the path redirected to passes through, whatever header comes with it. */
  lemma RedirectIsIdempotent(config: I18nConfig, url: Url, acceptLanguage: Option<string>, parseFloat: string -> real,
                             nextLanguage: Option<string>)
    requires config.defaultLanguage in config.languages
    requires StartsWith(url.pathname, "/")
    ensures match HandleRequest(config, url, acceptLanguage, parseFloat)
            case Next => true
            case Redirect(location) => HandleRequest(config, location, nextLanguage, parseFloat) == Next
  {
    var locale := GetLocale(config, acceptLanguage, parseFloat);
    assert locale in config.languages;
    assert IsLocalePrefixed(RedirectPathname(locale, url.pathname), locale);
  }
}
