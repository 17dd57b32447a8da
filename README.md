# Locale routing and sitemap of the documentation site, in Dafny

This project models the locale-aware routing and sitemap layer of a Next.js
documentation site in Dafny 4.11 and proves properties of that model. The layer
has three parts:

- **The locale registry and the locale path builder** (`lib/i18n.ts`). The
  registry lists the default language `en-US` and the supported languages
  `en-US` and `zh-CN`. `getLocalePath(lang, path)` strips at most one leading
  `/` and prefixes `/<lang>`. Module `I18n`.
- **The middleware** (`middleware.ts`). `getLocale` negotiates a language from
  the `Accept-Language` header:
  - it splits the header on `,`, `;` and `=`;
  - it trims each tag;
  - it stable-sorts the entries by descending quality;
  - it tries an exact match, then a `startsWith` match on the primary subtag,
    and otherwise falls back to the default.

  `middleware` redirects every path that no supported language prefixes. It
  keeps the origin and the query string. Modules `Middleware` and
  `MiddlewareExamples`; the second holds worked cases on the shipped registry.
- **The sitemap builder** (`app/sitemap.ts`). `sitemap()` produces:
  - one root entry per language;
  - a grouping of every language's pages by joined slug key, in order of first
    appearance;
  - one documentation entry per (language, page), with its priority, change
    frequency and alternates;
  - the back-fill of each root entry's `lastModified` with its language's latest
  page timestamp.

  The source code is imperative, so module `Sitemap` models it with methods
  over `seq` and `map` accumulators and loop invariants. Each method is proved
  equal to a specification function in `SitemapSpec`. The properties promised
  for the sitemap are proved about those functions in `SitemapProperties`.

Supporting modules:

- `Wrappers`: an `Option` type and the `Map.get` lookup.
- `JsStrings`: the ECMAScript string operations the code uses. These are
  `startsWith`, `split` on one character, `join`, `trim` over the full
  JavaScript whitespace set, `replace` of the first occurrence of a string
  pattern, and `filter(Boolean)[0]`.
- `Seqs`: generic `map` and `flatMap` over sequences, with their lemmas.

Modelling choices:

- The registry is a parameter of type `I18nConfig`, and `I18N` is the shipped
  value. Each lemma states what it needs of the registry:
  - `ValidConfig`: some language, none twice, and the default among them;
  - `SegmentLanguages`: every language is one non-empty path segment;
  - for the alternates lemmas, that no language is named `x-default`.

  `ShippedConfigIsValid` proves the first two for the shipped registry.
  `SitemapProperties.ShippedConfigFitsSitemap` proves all three.
- `parseFloat` is a function parameter `string -> real`. A quality part
  without `=` hands it the text `"undefined"`, which is what
  `parseFloat(undefined)` receives.
- The content source `source.getPages` is a parameter
  `string -> seq<Page>`. A timestamp is an `Option<int>`: `None` stands for a
  missing or invalid date.
- Priorities are integer tenths: 10, 9, 8 and 7.
- The site origin is a string parameter.

Behaviour of the code worth knowing:

- The prefix match takes the **first** registry language that starts with the
  primary subtag, however many do. It also runs for an empty primary subtag,
  so an entry like `-x` picks the first language.
- An entry of quality 0 is still tried.
- A depth-0 documentation page (the docs index) gets priority 0.7.
- Root entries are pushed without a `lastModified`. The back-fill then gives
  each one its language's latest page timestamp.
- `generateAlternates` adds no `x-default` when the chosen language is the
  empty string, because the empty string is falsy.
- Nothing stops a language from listing two pages with the same slug key. Such
  pages get two entries with the same URL (`SitemapUrls.SharedKeySharesUrl`,
  with `SitemapProperties.EveryPageHasAnEntry`). `SitemapUrls.SitemapUrlsDistinct`
  proves that URLs are unique when each language lists each slug key once.

## Model

| member | source | states |
|---|---|---|
| I18n.ShippedConfigIsValid | lib/i18n.ts:3-7 | The shipped registry has languages, none twice, and contains the default. Every language is a non-empty single path segment. |
| I18n.CleanPath | lib/i18n.ts:10 | The cleaned path is the path itself or the path without one leading `/`. |
| I18n.LocalePath | lib/i18n.ts:9-12 | The result is `/<lang>` or starts with `/<lang>/`, so it is always locale-prefixed. |
| I18n.LocalePathOfRoot | lib/i18n.ts:9-11 | Both `""` and `"/"` give `"/" + lang`. |
| I18n.LocalePathOfPage | lib/i18n.ts:10-11 | A non-empty cleaned path gives `"/" + lang + "/" + cleanPath`. |
| I18n.LocalePathStripsOneSlash | lib/i18n.ts:10 | For `p` not starting with `/`, `"/" + p` and `p` give the same locale path. |
| I18n.LocalePathKeepsSecondSlash | lib/i18n.ts:10 | Only one slash is stripped: `"//" + p` keeps its second slash. |
| I18n.LocalePathInjective | lib/i18n.ts:9-12 | Within one language, two paths give the same locale path if and only if their cleaned forms are equal. |
| JsStrings.Split | middleware.ts:23-25 | `split` always yields at least one piece. |
| JsStrings.SplitPiecesLackSeparator | middleware.ts:23-25 | No piece of a split contains the separator. |
| JsStrings.JoinSplit | app/sitemap.ts:67 | Joining the pieces of a split with the separator gives back the string. |
| JsStrings.SplitJoin | app/sitemap.ts:67 | Splitting a join of separator-free pieces gives back the pieces. |
| JsStrings.SplitNoSeparator | middleware.ts:23-25 | A string without the separator splits into itself alone. |
| JsStrings.SplitAtSeparator | middleware.ts:23-25 | A separator-free prefix followed by the separator is split off as the first piece. |
| JsStrings.SplitTwo | middleware.ts:25 | Two separator-free strings around one separator split into exactly those two, as a tag and its quality part do. |
| JsStrings.SplitFirstIsPrefix | middleware.ts:40 | The first piece of a split is a prefix of the string. |
| JsStrings.TrimStartRemovesLeadingWhitespace | middleware.ts:27 | `trimStart` removes exactly the leading JavaScript whitespace and keeps the rest. |
| JsStrings.TrimEndRemovesTrailingWhitespace | middleware.ts:27 | `trimEnd` removes exactly the trailing JavaScript whitespace and keeps the rest. |
| JsStrings.TrimUntouched | middleware.ts:27 | A string with no whitespace at either end is its own trim. |
| JsStrings.TrimIsTrimmed | middleware.ts:27 | A trimmed string has no whitespace at either end, and trimming is idempotent. |
| JsStrings.IndexOfFrom | app/sitemap.ts:84 | The result is the first index at or after `from` where the pattern occurs, or nothing when the pattern does not occur there. |
| JsStrings.ReplacePrefix | app/sitemap.ts:84 | Removing the origin from the front of a URL that starts with it leaves the rest. |
| JsStrings.FirstNonEmpty | app/sitemap.ts:84-85 | The result is the first non-empty piece. It is nothing exactly when every piece is empty. |
| Wrappers.Lookup | app/sitemap.ts:75 | `Map.get` gives a value exactly when the key is present, and that value is the map's. |
| Middleware.ParseEntryWithoutQuality | middleware.ts:25-29 | An entry without `;` has its trimmed text as the tag and quality 1.0. |
| Middleware.QualityTextOf | middleware.ts:28 | `q=v` hands `v` to `parseFloat`. |
| Middleware.ParseEntryWithQuality | middleware.ts:25-29 | `tag;q=v` parses to the trimmed tag and quality `parseFloat(v)`. |
| Middleware.InsertPermutes | middleware.ts:31 | Inserting an entry into a sorted list keeps the same multiset of entries. |
| Middleware.InsertKeepsOrder | middleware.ts:31 | Inserting into a list sorted by descending quality keeps it sorted. |
| Middleware.InsertIsStable | middleware.ts:31 | Insertion keeps the order among entries of equal quality. |
| Middleware.SortByQualityIsStableSort | middleware.ts:23-31 | The sort orders by descending quality and is a permutation. Entries of equal quality keep their header order. |
| Middleware.FindPrefixed | middleware.ts:41 | `find` returns the first registry language that starts with the base, or nothing exactly when none does. |
| Middleware.MatchTag | middleware.ts:35-44 | A match is always a registry language, and a supported tag matches itself. |
| Middleware.Negotiate | middleware.ts:33-47 | The loop returns a registry language or the default. |
| Middleware.NegotiateFirstMatch | middleware.ts:33-44 | The first candidate with a match decides, and later candidates are not considered. |
| Middleware.NegotiateNoMatch | middleware.ts:47 | When no candidate matches, the result is the default. |
| Middleware.GetLocale | middleware.ts:19-48 | An absent or empty header gives the default. Any result is a registry language or the default. |
| Middleware.GetLocaleIsSupported | middleware.ts:33-47 | When the default is a registry language, `getLocale` always returns a registry language. |
| Middleware.GetLocaleOfSupportedTag | middleware.ts:33-37 | A header that is exactly one supported tag selects that tag. |
| Middleware.MatchTagByPrefix | middleware.ts:39-44 | A non-exact tag selects the first registry language that starts with its primary subtag, with no uniqueness check. |
| Middleware.EmptyBaseMatchesFirstLanguage | middleware.ts:40-41 | An empty primary subtag matches the first registry language. |
| Middleware.RedirectPathname | middleware.ts:63 | For a pathname starting with `/`, the redirect path is prefixed by the negotiated locale. |
| Middleware.HandleRequest | middleware.ts:50-75 | The request passes through exactly when its path has a locale. A redirect keeps the origin and the query string, and its path is `"/" + locale` followed by the pathname, where `/` counts as empty. |
| Middleware.LocalePathIsNotMissingLocale | middleware.ts:54-56 | A path built by `getLocalePath` for a supported language is never redirected. |
| Middleware.RedirectIsIdempotent | middleware.ts:54-63 | For a pathname starting with `/`, the redirected URL passes through on the next request, whatever its header. |
| MiddlewareExamples.BaseLanguageOf | middleware.ts:40 | The base language of `lang-region` is `lang`. |
| MiddlewareExamples.NegotiateSoleMatch | middleware.ts:33-45 | When only one candidate has a match, that candidate decides wherever it stands. |
| MiddlewareExamples.SortedSoleMatch | middleware.ts:31-45 | That still holds after the sort. |
| MiddlewareExamples.ParseEnGb | middleware.ts:25-29 | `en-GB` parses to tag `en-GB` with quality 1.0. |
| MiddlewareExamples.EnGbMatchesEnUs | middleware.ts:39-44 | On the shipped registry, `en-GB` matches `en-US` by prefix. |
| MiddlewareExamples.FrMatchesNothing | middleware.ts:35-44 | On the shipped registry, `fr` matches nothing. |
| MiddlewareExamples.EnGbSelectsEnUs | middleware.ts:19-48 | `en-GB,fr;q=<v>` selects `en-US` for every quality text `v`. |
| MiddlewareExamples.ZeroQualityIsStillTried | middleware.ts:31-45 | `fr;q=<p>,zh-CN;q=<z>` selects `zh-CN` for any qualities, `q=0` included. |
| MiddlewareExamples.DownloadIsRedirectedOnce | middleware.ts:50-75 | Without a header, `/download?ref=x` is redirected to `/en-US/download?ref=x`, which then passes through. |
| SitemapSpec.ChosenDefault | app/sitemap.ts:37-39 | A language is chosen exactly when there is one, and the choice is one of them. |
| SitemapSpec.Priority | app/sitemap.ts:98-106 | A documentation priority is between 0.7 and 0.9. |
| SitemapSpec.ChangeFreq | app/sitemap.ts:108-111 | Monthly exactly when the first slug is `api`, otherwise weekly, never daily. |
| SitemapProperties.AlternatesCover | app/sitemap.ts:29-44 | For non-empty languages, the keys are exactly the languages, plus `x-default` when there is at least one. Each language maps to its page. `x-default` maps to the default language's page when the default is present, and to the first language's otherwise. |
| SitemapProperties.NoLanguagesNoAlternates | app/sitemap.ts:29-44 | No languages give no alternates, so there is no `x-default`. |
| SitemapProperties.EmptyLanguageGetsNoXDefault | app/sitemap.ts:40-42 | A chosen language that is the empty string adds no `x-default`. |
| SitemapProperties.AllPagesMembership | app/sitemap.ts:64-66 | A tagged page is visited exactly when its language is a registry language and the source lists the page for it. |
| SitemapProperties.GroupingStep | app/sitemap.ts:67-79 | One more page adds its key if new, appends itself to its key's group, and updates only its language's latest timestamp. |
| SitemapProperties.GroupOfAbsentKey | app/sitemap.ts:68-71 | A key that never became a group has no pages. |
| SitemapProperties.GroupKeysMembership | app/sitemap.ts:67-70 | A key is in `pagesBySlug` exactly when some page has it. |
| SitemapProperties.GroupKeysDistinct | app/sitemap.ts:68-70 | `pagesBySlug` holds each key once. |
| SitemapProperties.GroupKeysInFirstAppearanceOrder | app/sitemap.ts:64-90 | Groups come in order of first appearance: a key listed earlier appears in the pages before any page of a later key. |
| SitemapProperties.GroupMembership | app/sitemap.ts:71 | A group holds exactly the pages with its key. |
| SitemapProperties.GroupLanguages | app/sitemap.ts:64-91 | A language is available for a key exactly when it is a registry language whose source has a page with that key. |
| SitemapProperties.LatestIsMaximum | app/sitemap.ts:46-79 | There is no latest timestamp exactly when the language's pages have none. Otherwise the latest is the timestamp of one of those pages and at least every other. |
| SitemapProperties.SumGroupSizesStep | app/sitemap.ts:68-71 | One more page adds one to the combined size of the groups exactly when its key is among them. |
| SitemapProperties.GroupSizesSum | app/sitemap.ts:64-81 | Every page is in exactly one group. |
| SitemapProperties.DocEntriesLength | app/sitemap.ts:90-123 | The groups give one entry per page they hold. |
| SitemapProperties.SitemapLength | app/sitemap.ts:48-123 | The sitemap has one entry per language plus one per (language, page). |
| SitemapProperties.RootKeyOfLanguage | app/sitemap.ts:84 | The back-fill recovers a language from its root URL when the language is one path segment. |
| SitemapProperties.RootEntryOf | app/sitemap.ts:48-88 | Entry `i` is the root of language `i`. Its URL is `origin/<lang>`, it is daily with priority 1.0, its alternates cover every language, and its `lastModified` is that language's latest page timestamp or nothing. |
| SitemapProperties.BackfillRoot | app/sitemap.ts:83-88 | The back-fill sets a root entry's `lastModified` to its language's latest timestamp and changes nothing else. |
| SitemapProperties.ShippedConfigFitsSitemap | lib/i18n.ts:3-7 | The shipped registry is valid, has one-segment languages, and has no language named `x-default`, so every sitemap lemma applies to it. |
| SitemapProperties.SitemapOfParts | app/sitemap.ts:48-125 | The sitemap is the back-filled root entries, one per language, followed by the documentation entries. |
| SitemapProperties.SitemapStartsWithRoots | app/sitemap.ts:48-88 | The first entries are the back-filled roots, in registry order. |
| SitemapProperties.RootAlternates | app/sitemap.ts:53-54 | With a valid registry, a root entry maps every language to its root and `x-default` to the default language's root. |
| SitemapProperties.DocUrl | app/sitemap.ts:25-27 | With `getLocalePath` applied to `docsPathForSlug(key)`, as line 114 does, a documentation URL is `origin/<lang>/docs`, followed by `/<key>` for a non-empty key. |
| SitemapProperties.PriorityByDepth | app/sitemap.ts:98-106 | The priority is 0.9 at depth 1, 0.8 at depth 2, and 0.7 at every other depth, 0 included. |
| SitemapProperties.PriorityNonIncreasing | app/sitemap.ts:98-106 | From depth 1 on, the priority never increases with depth. |
| SitemapProperties.PageEntriesLength | app/sitemap.ts:94-122 | A group gives one entry per page. |
| SitemapProperties.PageEntriesAt | app/sitemap.ts:94-122 | A group's `i`-th entry is the entry of its `i`-th page. |
| SitemapProperties.DocEntriesAreDocEntries | app/sitemap.ts:90-123 | Every documentation entry is the entry of some visited page, built with that page's group and key. |
| SitemapProperties.SitemapDocEntry | app/sitemap.ts:90-123 | Every entry after the roots is the entry of one page of one registry language. Its `lastModified` is that page's timestamp, so it is present exactly when the page has a valid one. |
| SitemapProperties.GroupEntriesHoldPage | app/sitemap.ts:94-122 | A group's entries include the entry of each of its pages. |
| SitemapProperties.DocEntriesHoldGroups | app/sitemap.ts:90-123 | The entries of the groups include the entry of every page of every group. |
| SitemapProperties.EveryPageHasAnEntry | app/sitemap.ts:64-123 | Every page of every registry language gets its entry in the sitemap. |
| SitemapProperties.DocAlternatesAreTranslations | app/sitemap.ts:64-119 | Apart from `x-default`, a documentation entry's alternates name exactly the registry languages that have a page with the same slug key. |
| SitemapUrls.DocsPathInjective | app/sitemap.ts:25-27 | Different slug keys give different documentation paths. |
| SitemapUrls.RootUrl | app/sitemap.ts:48-88 | Root entry `i` has URL `origin/<lang i>`, both before and after the back-fill. |
| SitemapUrls.DocEntryUrl | app/sitemap.ts:114 | A documentation entry's URL is `origin/<lang>/<docsPath>`. |
| SitemapUrls.SharedKeySharesUrl | app/sitemap.ts:67-114 | Two pages of one language with the same slug key get entries with the same URL, so URLs are unique only under the condition below. |
| SitemapUrls.AllPagesUnique | app/sitemap.ts:64-66 | With distinct languages, each listing every slug key once, no (language, slug key) pair is visited twice. |
| SitemapUrls.GroupLanguagesDistinct | app/sitemap.ts:68-71 | Without a repeated (language, slug key) pair, the pages of one group have distinct languages. |
| SitemapUrls.GroupUrlsDistinct | app/sitemap.ts:94-121 | The entries of one group have pairwise distinct URLs. |
| SitemapUrls.GroupsUrlsApart | app/sitemap.ts:90-121 | Entries of two different groups have different URLs. |
| SitemapUrls.DocUrlsDistinct | app/sitemap.ts:90-123 | The documentation entries have pairwise distinct URLs. |
| SitemapUrls.RootAndDocApart | app/sitemap.ts:50-114 | No root URL is a documentation URL. |
| SitemapUrls.SitemapUrlsDistinct | app/sitemap.ts:13-126 | With a valid registry of one-segment languages, each listing every slug key once, no two sitemap entries share a URL. In particular, no (language, slug key) pair gets two entries. |
| Sitemap.GenerateAlternates | app/sitemap.ts:29-44 | The loop builds exactly the alternates record that `SitemapProperties.AlternatesCover` describes. |
| Sitemap.PushRootEntries | app/sitemap.ts:48-57 | The loop pushes one root entry per registry language, in order. |
| Sitemap.RecordPage | app/sitemap.ts:67-79 | Recording one page keeps `pagesBySlug`, its key order and `latestModifiedByLang` equal to the grouping of the pages seen so far. |
| Sitemap.GroupPages | app/sitemap.ts:59-81 | The nested loops leave the keys in first-appearance order, each key's group, and each language's latest timestamp. |
| Sitemap.BackfillRootLastModified | app/sitemap.ts:83-88 | The back-fill loop gives each entry the latest timestamp of the language its URL names. |
| Sitemap.MakeDocEntry | app/sitemap.ts:95-121 | One documentation entry as the specification functions define it: URL, optional timestamp, change frequency, priority and alternates. |
| Sitemap.PushGroupEntries | app/sitemap.ts:91-122 | The inner loop appends the entries of one group, in the group's order. |
| Sitemap.PushDocEntries | app/sitemap.ts:90-123 | The outer loop appends the entries of every group, group after group in key order. |
| Sitemap.BuildSitemap | app/sitemap.ts:13-126 | `sitemap()` returns exactly `SitemapSpec.SitemapOf`, which the `SitemapProperties` lemmas describe. |

## Left out

- The `config.matcher` regular expression (`middleware.ts:4-17`) is left out. Next.js decides which paths reach the middleware, and the model handles every path it is given.
- `toDate` (`app/sitemap.ts:17-23`) is left out because it parses JavaScript `Date`s. A page timestamp is an `Option<int>`, where `None` stands for a missing or invalid date.
- `parseFloat` is a parameter, so NaN qualities and their effect on the sort comparator are not modelled. Qualities are exact reals.
- `NextRequest`, `NextResponse`, the `URL` class and the environment-dependent `baseUrl` (`lib/metadata.ts:32-35`) are left out. They are framework plumbing. The origin is a string parameter, the URL a triple of origin, pathname and query.
- `source.getPages` and `lib/source` are not part of this model. The content source is a parameter `string -> seq<Page>`.
- The key order of the alternates record is not modelled, because alternates are a Dafny `map`.
- `Sitemap.BackfillRootLastModified`: the source changes the pushed entries in place. The model builds the updated sequence instead, so it does not capture aliasing between an entry and the array holding it.
- The React components (the footer, cards, layouts and MDX components) are left out as presentation. The footer's policy links use `getLocalePath`, which `I18n.LocalePath` models.
- The search route, `robots`, `createMetadata` and the Next.js and ESLint configuration are left out. They hold no logic of this layer.
- Characters are Dafny `char`s, which are Unicode scalar values, whereas JavaScript strings are sequences of UTF-16 code units. Every separator the code splits on or tests for is ASCII, so `split`, `startsWith`, `trim` and `replace` give the same pieces under both readings of any well-formed string. Lone surrogates are not modelled.
