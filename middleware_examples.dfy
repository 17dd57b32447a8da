/** Worked cases of locale negotiation and redirection on the registry the site ships with. */
module MiddlewareExamples {
  import opened Wrappers
  import opened JsStrings
  import opened I18n
  import opened Middleware


  lemma BaseLanguageOf(lang: string, region: string)
    requires '-' !in lang
    ensures BaseLanguage(lang + "-" + region) == lang
  {
    SplitAtSeparator(lang, '-', region);
  }

  /** When exactly one candidate has a match, that match decides, wherever the candidate stands. */
  lemma {:induction false} NegotiateSoleMatch(config: I18nConfig, cands: seq<Candidate>, c: Candidate)
    requires c in cands && MatchTag(config, c.tag).Some?
    requires forall x :: x in cands && x != c ==> MatchTag(config, x.tag).None?
    ensures Negotiate(config, cands) == MatchTag(config, c.tag).value
  {
    if cands[0] != c {
      assert cands == [cands[0]] + cands[1..];
      NegotiateSoleMatch(config, cands[1..], c);
    }
  }

  lemma {:induction false} ParseTwoEntries(a: string, b: string, parseFloat: string -> real)
    requires ',' !in a && ',' !in b
    ensures var parsed := ParseHeader(a + [','] + b, parseFloat);
            |parsed| == 2 && parsed[0] == ParseEntry(a, parseFloat) && parsed[1] == ParseEntry(b, parseFloat)
  {
    SplitTwo(a, ',', b);
  }

  /** Once sorted, a list of candidates of which only `c` matches is decided by `c`. */
  lemma SortedSoleMatch(config: I18nConfig, cands: seq<Candidate>, c: Candidate)
    requires c in cands && MatchTag(config, c.tag).Some?
    requires forall x :: x in cands && x != c ==> MatchTag(config, x.tag).None?
    ensures Negotiate(config, SortByQuality(cands)) == MatchTag(config, c.tag).value
  {
    var sorted := SortByQuality(cands);
    SortByQualityIsStableSort(cands);
    assert c in multiset(sorted);
    forall x | x in sorted && x != c ensures MatchTag(config, x.tag).None? {
      assert x in multiset(cands);
    }
    NegotiateSoleMatch(config, sorted, c);
  }

  lemma SortedPairSoleMatch(config: I18nConfig, cands: seq<Candidate>, c: Candidate, d: Candidate)
    requires |cands| == 2 && ((cands[0] == c && cands[1] == d) || (cands[0] == d && cands[1] == c))
    requires MatchTag(config, c.tag).Some? && MatchTag(config, d.tag).None?
    ensures Negotiate(config, SortByQuality(cands)) == MatchTag(config, c.tag).value
  {
    assert c in cands;
    forall x | x in cands && x != c ensures MatchTag(config, x.tag).None? {
      var k :| 0 <= k < 2 && cands[k] == x;
    }
    SortedSoleMatch(config, cands, c);
  }

  lemma GetLocaleOfNegotiated(config: I18nConfig, header: string, parseFloat: string -> real, lang: string)
    requires header != ""
    requires Negotiate(config, SortByQuality(ParseHeader(header, parseFloat))) == lang
    ensures GetLocale(config, Some(header), parseFloat) == lang
  {
  }

  /**
   * A two-entry header of which only the entry `c` matches selects `c`'s
   * match, whichever order the qualities put the two entries in.
   */
  lemma GetLocaleOfTwoEntries(config: I18nConfig, a: string, b: string, parseFloat: string -> real, c: Candidate, d: Candidate)
    requires ',' !in a && ',' !in b
    requires (ParseEntry(a, parseFloat) == c && ParseEntry(b, parseFloat) == d)
          || (ParseEntry(a, parseFloat) == d && ParseEntry(b, parseFloat) == c)
    requires MatchTag(config, c.tag).Some? && MatchTag(config, d.tag).None?
    ensures GetLocale(config, Some(a + [','] + b), parseFloat) == MatchTag(config, c.tag).value
  {
    var header := a + [','] + b;
    ParseTwoEntries(a, b, parseFloat);
    SortedPairSoleMatch(config, ParseHeader(header, parseFloat), c, d);
    GetLocaleOfNegotiated(config, header, parseFloat, MatchTag(config, c.tag).value);
  }

  lemma ParseEnGb(parseFloat: string -> real)
    ensures ParseEntry("en-GB", parseFloat) == Candidate("en-GB", 1.0)
  {
    SplitNoSeparator("en-GB", ';');
    TrimUntouched("en-GB");
  }

  lemma ParseWithQuality(tag: string, v: string, parseFloat: string -> real)
    requires ';' !in tag && ';' !in v && '=' !in v
    requires tag == [] || (!IsJsWhitespace(tag[0]) && !IsJsWhitespace(tag[|tag| - 1]))
    ensures ParseEntry(tag + ";q=" + v, parseFloat) == Candidate(tag, parseFloat(v))
  {
    ParseEntryWithQuality(tag, v, parseFloat);
    TrimUntouched(tag);
  }

  lemma EnGbMatchesEnUs()
    ensures MatchTag(I18N, "en-GB") == Some("en-US")
  {
    BaseLanguageOf("en", "GB");
    assert "en-GB" == "en" + "-" + "GB";
    MatchTagByPrefix(I18N, "en-GB", 0);
  }

  lemma FrMatchesNothing()
    ensures MatchTag(I18N, "fr") == None
  {
    SplitNoSeparator("fr", '-');
    assert !StartsWith("en-US", "fr") && !StartsWith("zh-CN", "fr");
  }

  /** A quality text: what follows `q=`, holding none of the header's separators. */
  predicate QualityLiteral(v: string) {
    ',' !in v && ';' !in v && '=' !in v
  }

  /** `en-GB` followed by any single `fr` entry selects `en-US`. */
  lemma EnGbBeforeFr(fr: string, parseFloat: string -> real, q: real)
    requires ',' !in fr && ParseEntry(fr, parseFloat) == Candidate("fr", q)
    ensures GetLocale(I18N, Some("en-GB" + [','] + fr), parseFloat) == "en-US"
  {
    ParseEnGb(parseFloat);
    EnGbMatchesEnUs();
    FrMatchesNothing();
    GetLocaleOfTwoEntries(I18N, "en-GB", fr, parseFloat, Candidate("en-GB", 1.0), Candidate("fr", q));
  }

  /**
   * `en-GB,fr;q=<v>` (for instance `en-GB,fr;q=0.8`) selects `en-US` by the
   * primary subtag `en`, whatever quality `fr` carries.
   */
  lemma EnGbSelectsEnUs(v: string, parseFloat: string -> real)
    requires QualityLiteral(v)
    ensures GetLocale(I18N, Some("en-GB,fr;q=" + v), parseFloat) == "en-US"
  {
    var fr := "fr" + ";q=" + v;
    QualityEntry("fr", v, parseFloat);
    EnGbBeforeFr(fr, parseFloat, parseFloat(v));
    assert "en-GB" + [','] + fr == "en-GB,fr;q=" + v;
  }

  /** A `zh-CN` entry after an `fr` entry selects `zh-CN`, whatever the two qualities. */
  lemma FrBeforeZhCn(fr: string, zh: string, parseFloat: string -> real, p: real, z: real)
    requires ',' !in fr && ParseEntry(fr, parseFloat) == Candidate("fr", p)
    requires ',' !in zh && ParseEntry(zh, parseFloat) == Candidate("zh-CN", z)
    ensures GetLocale(I18N, Some(fr + [','] + zh), parseFloat) == "zh-CN"
  {
    FrMatchesNothing();
    assert MatchTag(I18N, "zh-CN") == Some("zh-CN");
    GetLocaleOfTwoEntries(I18N, fr, zh, parseFloat, Candidate("zh-CN", z), Candidate("fr", p));
  }

  /**
   * No quality excludes an entry: `fr;q=<p>,zh-CN;q=<z>` selects `zh-CN` for
   * every pair of qualities, `fr;q=1,zh-CN;q=0` among them.
   */
  lemma ZeroQualityIsStillTried(p: string, z: string, parseFloat: string -> real)
    requires QualityLiteral(p) && QualityLiteral(z)
    ensures GetLocale(I18N, Some("fr;q=" + p + ",zh-CN;q=" + z), parseFloat) == "zh-CN"
  {
    var fr, zh := "fr" + ";q=" + p, "zh-CN" + ";q=" + z;
    QualityEntry("fr", p, parseFloat);
    QualityEntry("zh-CN", z, parseFloat);
    FrBeforeZhCn(fr, zh, parseFloat, parseFloat(p), parseFloat(z));
    TwoEntryHeader(p, z);
  }

  lemma TwoEntryHeader(p: string, z: string)
    ensures ("fr" + ";q=" + p) + [','] + ("zh-CN" + ";q=" + z) == "fr;q=" + p + ",zh-CN;q=" + z
  {
  }

  /** An entry `<tag>;q=<v>` holds no comma and parses to `tag` with quality `parseFloat(v)`. */
  lemma QualityEntry(tag: string, v: string, parseFloat: string -> real)
    requires ',' !in tag && ';' !in tag && tag != [] && !IsJsWhitespace(tag[0]) && !IsJsWhitespace(tag[|tag| - 1])
    requires QualityLiteral(v)
    ensures ',' !in tag + ";q=" + v
    ensures ParseEntry(tag + ";q=" + v, parseFloat) == Candidate(tag, parseFloat(v))
  {
    ParseWithQuality(tag, v, parseFloat);
    var e := tag + ";q=" + v;
    forall k | 0 <= k < |e| ensures e[k] != ',' {
      if k < |tag| { assert e[k] == tag[k]; }
      else if k >= |tag| + 3 { assert e[k] == v[k - |tag| - 3]; }
    }
  }

  /** `/download?ref=x` without a header goes to `/en-US/download?ref=x`, which then passes through. */
  lemma DownloadIsRedirectedOnce(origin: string, parseFloat: string -> real, acceptLanguage: Option<string>)
    ensures HandleRequest(I18N, Url(origin, "/download", "?ref=x"), None, parseFloat)
            == Redirect(Url(origin, "/en-US/download", "?ref=x"))
    ensures HandleRequest(I18N, Url(origin, "/en-US/download", "?ref=x"), acceptLanguage, parseFloat) == Next
  {
    assert "/download"[1] == 'd' && ("/" + "en-US" + "/")[1] == 'e' && ("/" + "zh-CN" + "/")[1] == 'z';
    assert !StartsWith("/download", "/" + "en-US" + "/") && !StartsWith("/download", "/" + "zh-CN" + "/");
    assert "/download" != "/" + "en-US" && "/download" != "/" + "zh-CN";
    assert PathnameIsMissingLocale(I18N, "/download");
    assert StartsWith("/en-US/download", "/en-US/");
  }
}
