# Google Scholar citations tag — verified model

This project models the Jekyll Liquid tag `google_scholar_citations`
(`{% google_scholar_citations scholarVar articleVar %}`). The tag renders the
citation count of one Google Scholar article. It reads the two ids from the
page's Liquid context and scrapes "Cited by N" from the article page. It
formats the count, and memoises the result per article id in the class-level
hash `Citations` for the rest of the build.

The model has three parts:

- `CitedBy` (`cited_by.dfy`): the extraction `/Cited by (\d+)/` followed by
  `to_i`. It takes the leftmost position where `"Cited by "` is immediately
  followed by an ASCII digit and reads the maximal run of digits there. With
  no such position the count is 0. A digit-grouping comma ends the run, so
  "Cited by 1,234" counts 1.
- `Params` (`params.dfy`): `params.split(" ").map(&:strip)` in `initialize`.
  Ruby's awk-style split on ASCII whitespace is followed by `strip`, which
  also removes NUL. The first token names the scholar variable and the second
  names the article variable.
- `ScholarCitations` (`scholar_citations.dfy`): the memoising `render`. The
  shared hash is a class `CitationCache` with a `map<string, string>` field.
  The tag is a class whose `Render` method reads and updates that cache. The
  method is proved equal to the pure function `Step`, and the lemmas state
  the properties of `Step` and of `Run`, a fold of `Step` over a sequence of
  renders.

Inputs that come from outside the Ruby code are parameters:
- the fetch is a `FetchOutcome`: `HttpError`, `OtherError`, or
  `Page(body)` carrying the `<body>` text, or nil for a page without a body;
- `Helpers.number_to_human` is the function parameter `format: nat -> string`;
- the Liquid context is a `map<string, string>` from variable names to values.

Where the code and the intended behaviour disagree, the model follows the code:
- Only nil ids are rejected. An empty-string id passes the check, reaches the
  cache and triggers a fetch (`EmptyIdsAreNotMissing`).
- `\d+` does not accept grouping commas. "Cited by 1,234" yields 1, not 1234,
  and "Cited by 3,400,000 times" yields 3 (`CommaEndsCount`).
- A cache hit is key membership. Every stored value is a string, and Ruby
  treats every string as true, so `if Citations[article_id]` holds exactly
  when the key is present.

## Model

| member | source | states |
|---|---|---|
| `ScholarCitations.GoogleScholarCitationsTag.constructor` | _plugins/google-scholar-citations.rb:13-18 | the two variable names are the first and second tokens of the parameter split |
| `ScholarCitations.GoogleScholarCitationsTag.Render` | _plugins/google-scholar-citations.rb:20-75 | the returned string, the new cache and whether a fetch happened are exactly `Step` applied to the old cache and the ids resolved from the stripped variable names |
| `ScholarCitations.Step` | _plugins/google-scholar-citations.rb:25-74 | with a nil id: "N/A", the cache unchanged and no fetch; with both ids: the new cache is the old one with the article id mapped to the result, a fetch happens exactly when the article id was not cached, and the result is the fetch result on a miss and the stored value on a hit |
| `ScholarCitations.Resolve` | _plugins/google-scholar-citations.rb:22-23 | a name resolves to its value exactly when the context binds it, and to nil otherwise |
| `ScholarCitations.PageCount` | _plugins/google-scholar-citations.rb:49-57 | a page without body counts 0; a body where the pattern matches nowhere counts 0; otherwise the count is the value of the digits at the leftmost match |
| `ScholarCitations.FetchResult` | _plugins/google-scholar-citations.rb:59-69 | an HTTP error or any other error gives "N/A"; a fetched page gives the formatted page count |
| `ScholarCitations.CitationCache.constructor` | _plugins/google-scholar-citations.rb:11 | the shared cache starts empty |
| `ScholarCitations.MissingIdRendersNotAvailable` | _plugins/google-scholar-citations.rb:22-28 | a nil scholar id or article id renders "N/A", makes no fetch and leaves the cache unchanged |
| `ScholarCitations.EmptyIdsAreNotMissing` | _plugins/google-scholar-citations.rb:25-28 | only nil is rejected: empty-string ids on an uncached key lead to a fetch |
| `ScholarCitations.ExtractCount` | _plugins/google-scholar-citations.rb:50-57 | the count the statements compute (start at 0, replace it by the captured digits' value when the body exists and matches) equals `PageCount` of the body, the count `Step` uses |
| `ScholarCitations.CacheHitReturnsStored` | _plugins/google-scholar-citations.rb:35-38 | with the article id cached, the render returns the stored string, makes no fetch and leaves the cache unchanged, whatever the scholar id and fetch outcome |
| `ScholarCitations.RenderStoresResult` | _plugins/google-scholar-citations.rb:72-74 | after a render with both ids present, the cache is the old cache with the article id mapped to the returned string, so no other key changes; a fetch happens exactly when the id was not cached |
| `ScholarCitations.MissRendersFormattedCount` | _plugins/google-scholar-citations.rb:49-60 | on a miss with a fetched page the result is the formatted extracted count; a page without body or without a match renders the formatted 0 |
| `ScholarCitations.FailureIsCached` | _plugins/google-scholar-citations.rb:62-73 | an HTTP error or any other error renders "N/A", caches "N/A", and the next render of that article id under any scholar id returns "N/A" without a fetch |
| `ScholarCitations.RenderAgainIsCached` | _plugins/google-scholar-citations.rb:35-74 | once a render with both ids has run, a later render of the same article id with any scholar id and fetch outcome returns the same string, makes no fetch and changes nothing |
| `ScholarCitations.CachedEntryIsFinal` | _plugins/google-scholar-citations.rb:35-73 | over any sequence of later renders a cached entry stays present with the same value |
| `ScholarCitations.AtMostOneFetchPerArticle` | _plugins/google-scholar-citations.rb:35-47 | over any sequence of renders, the fetched article ids are distinct, none was cached at the start, and all are cached at the end |
| `CitedBy.DigitRunEnd` | _plugins/google-scholar-citations.rb:51 | greedy `\d+`: the run from the start position holds only digits and ends at the end of the text or at a non-digit |
| `CitedBy.DigitsValue` | _plugins/google-scholar-citations.rb:54 | `to_i` of the captured digits is the number they spell, below 10 to the power of their count |
| `CitedBy.LeadingZeroIgnored` | _plugins/google-scholar-citations.rb:54 | `to_i` ignores a leading zero, so "007" reads as 7 |
| `CitedBy.FindMatch` | _plugins/google-scholar-citations.rb:51 | the position found matches "Cited by " followed by a digit, and no earlier position from the start does; no result means no match at or after the start |
| `CitedBy.Capture` | _plugins/google-scholar-citations.rb:51 | the match is nil exactly when the pattern matches nowhere; otherwise it is the digit run at the leftmost match, non-empty and all digits |
| `CitedBy.CitedByCount` | _plugins/google-scholar-citations.rb:50-57 | the count is 0 when nothing matches, and otherwise the decimal value of the digit run at the leftmost match |
| `CitedBy.CountOfShownNumber` | _plugins/google-scholar-citations.rb:50-57 | text with no digit before "Cited by " followed by the decimal digits of n and then a non-digit or the end yields exactly n |
| `CitedBy.CommaEndsCount` | _plugins/google-scholar-citations.rb:51-54 | "Cited by " followed by the digits of n and a comma yields n, so "Cited by 1,234" yields 1 and "Cited by 3,400,000 times" yields 3 |
| `Params.FieldLength` | _plugins/google-scholar-citations.rb:15 | a field extends over non-whitespace characters up to the first whitespace or the end |
| `Params.Fields` | _plugins/google-scholar-citations.rb:15 | every field of `split(" ")` is non-empty and free of whitespace |
| `Params.FieldsAfterSpace` | _plugins/google-scholar-citations.rb:15 | `split(" ")` ignores leading whitespace: prefixing a run of whitespace does not change the fields |
| `Params.FieldsAfterField` | _plugins/google-scholar-citations.rb:15 | a field followed by whitespace or the end of the string is split off whole as the first field, and splitting continues after it |
| `Params.FieldsOfJoin` | _plugins/google-scholar-citations.rb:15 | splitting fields joined by spaces gives back exactly those fields |
| `Params.LeadingCount` | _plugins/google-scholar-citations.rb:15 | the count covers exactly the strippable characters at the start: all before it are whitespace or NUL, and the next one is not |
| `Params.TrailingCount` | _plugins/google-scholar-citations.rb:15 | the count covers exactly the strippable characters at the end: all after the cut are whitespace or NUL, and the one before is not |
| `Params.Strip` | _plugins/google-scholar-citations.rb:15 | `strip` returns the slice of the input that starts after its leading whitespace and NUL and is followed only by whitespace and NUL; neither end of the result is strippable, and a string without whitespace stays without whitespace |
| `Params.StripClean` | _plugins/google-scholar-citations.rb:15 | `strip` leaves a string unchanged when neither of its ends is whitespace or NUL |
| `Params.StripIdempotent` | _plugins/google-scholar-citations.rb:22-23 | stripping twice equals stripping once, so the second `strip` at render time changes no name |
| `Params.ParseParams` | _plugins/google-scholar-citations.rb:15-17 | the scholar variable is present exactly when there is at least one field and the article variable exactly when there are two; each is the stripped field at that position and contains no whitespace |
| `Params.ParseTwoNames` | _plugins/google-scholar-citations.rb:15-17 | with two names separated by whitespace, after optional leading whitespace and before further fields, the first is the scholar variable and the second the article variable |
| `Params.ParseOneName` | _plugins/google-scholar-citations.rb:15-17 | a single name gives the scholar variable and leaves the article variable nil |
| `Params.ParseBlank` | _plugins/google-scholar-citations.rb:15-17 | blank parameters give no variable names |

## Left out

- `sleep(rand(3..5))` (line 41): a random delay that does not affect the result.
- `URI.open` with its User-Agent header (lines 45-47): the network request is replaced by the `FetchOutcome` input.
- `Nokogiri::HTML` and `at_css("body")&.text` (lines 45, 51): HTML parsing is replaced by the body text carried in `Page`.
- `Helpers.number_to_human` (line 60): ActiveSupport's float-based abbreviation is the parameter `format`. The model proves no formatted output such as "1.23K", and it does not model an exception raised by the formatter.
- `puts` logging (lines 26, 36, 44, 56, 64, 68): output only.
- Construction of the article URL (line 31): it only feeds the fetch and the logs.
- Liquid context resolution (lines 22-23) is a plain lookup of the variable name in a map of string values. Liquid's dotted paths, literals and non-string values are not modelled.
- Tag registration with Liquid (line 79).
- The `NoMethodError` from `nil.strip` when fewer than two tokens are given (lines 22-23, outside the `begin`): `Render` requires both variable names instead.
- Concurrent renders: the model is sequential. It does not capture the duplicate fetches that overlapping renders of one article id could cause.
