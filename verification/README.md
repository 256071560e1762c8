# Locale resolution of gae-boilerplate, modelled in Dafny

gae-boilerplate is a Google App Engine starter application. Each request
handler picks a display language (a *locale tag* such as `en` or `fr_CA`)
when it is created. The tag comes from a priority chain: a tag passed by
the caller, the `hl` query parameter, the `hl` cookie, the browser's
`Accept-Language` header, the client's country, and finally the first
configured locale. The handler stores the result in the `hl` cookie. It
then fetches a table of display names for the language menu, which is
cached per tag.

The repository holds two copies of this logic:

- `bp_includes/lib/i18n.py` is the copy in use.
- `boilerplate/lib/i18n.py` is an older copy that differs in several
  details. Both are modelled, each in its own module.

The model also covers the parts of the handler base class
(`bp_includes/lib/basehandler.py`) that sit next to this logic:

- the CSRF guard run before dispatch;
- the time-zone and country choice lists;
- the `path_qs` handed to templates.

Layout, one module per file:

| module | file | role |
|---|---|---|
| `Wrappers` | wrappers.dfy | `Option` and `Result`; a `Result` failure stands for a raised Python exception |
| `Text` | text.dfy | character classes, case mapping, Python's string order `StrLt` |
| `Sorting` | sorting.dfy | a stable insertion sort standing in for `sorted`/`list.sort` |
| `Web` | web.dfy | the request and response as values: query and form parameters, cookies, headers, cookie writes |
| `LocaleLib` | locale_lib.dfy | Babel's `Locale` as a record of functions: `negotiate`, whether `Locale.parse` accepts a tag, `display_name`, `get_display_name` |
| `AcceptLanguage` | accept_language.dfy | the `Accept-Language` parser shared by both copies, parameterised by the qvalue grammar |
| `HeaderRoundTrip` | header_round_trip.dfy | writing matches out as a header and scanning it gives them back |
| `DisplayStrings` | display_strings.dfy | `LocaleStrings` and the per-tag cache |
| `BpI18n` | bp_i18n.dfy | the current copy |
| `BoilerplateI18n` | boilerplate_i18n.dfy | the older copy |
| `BaseHandler` | basehandler.dfy | CSRF guard, `tz`, `countries_tuple`, template `path_qs` |
| `WorkedCases` | worked_cases.dfy | concrete headers and requests worked through the model |

How some Python constructs are modelled:

- **Exceptions.** A Python exception is a `Failure` carrying one of:
  - `IndexError`: a five-character tag with no dash;
  - `KeyError`: deleting `hl` from a query that lacks it;
  - `UnboundLocalError`;
  - `AssertionError`;
  - `LocaleError`: Babel's `UnknownLocaleError` or `ValueError` when
    `Locale.parse` rejects a tag, whether called directly or at the end of
    `Locale.negotiate`, which parses the tag it matched.
- **Mutations become values.** `del request.GET['hl']` returns a new
  request. Setting a cookie appends to the response's list of cookie
  writes. Setting the active locale fills the response's `activeLocale`.
- **The cache is explicit.** memcache is a map that is passed in and
  returned.
- **The regular expression is a scanner.** Every part of the pattern after
  the first letter is optional, and each greedy piece keeps its longest
  run. A match starting at a letter therefore always succeeds without
  backtracking, and a maximal-munch scanner (`AcceptLanguage.Scan`)
  reproduces `re.finditer` for this pattern.

## Behaviour of the code that is easy to miss

The model follows the code, including these consequences of it:

- **Weights can exceed 100.** With the current copy's qvalue pattern
  `(1|0)(\.[0-9]+)?` (bp_includes/lib/i18n.py, line 14), `q=1.5` gives
  150 (`WorkedCases.FractionAboveOneCurrent`). In exact arithmetic the
  weights stay at or below 199 (`AcceptLanguage.MaxWeight`). Python's float
  rounding lets `q=1.9999999999999999` reach 200. The older pattern
  `1|0\.[0-9]+` (boilerplate/lib/i18n.py, line 10) keeps every weight at
  or below 100, float rounding included
  (`BoilerplateI18n.ParsedWeightsAtMost100`).
- **Weights are truncated.** `int(100*float(q))` (bp_includes/lib/i18n.py,
  line 43) drops the fraction: `q=0.555` gives 55.
- **A repeated tag keeps its last weight.** Each match assigns
  `res[l]`, so `en;q=0.2,en;q=0.9` gives `{en: 90}`
  (`AcceptLanguage.ParseLastWins`).
- **Ties follow dictionary order.** The current copy sorts `parsed.items()`
  by weight alone (line 103). Tags of equal weight keep the dictionary's
  iteration order, not the header's order.
- **The older copy does not sort by weight.** Its docstring
  (boilerplate/lib/i18n.py, lines 71-72) promises the locale "with the
  highest quality factor". The code sorts the tags themselves in reverse
  string order (line 85). The candidate list therefore depends only on
  which tags were parsed (`BoilerplateI18n.CandidatesDeterminedByTags`).
  The current copy's docstring (bp_includes/lib/i18n.py, line 92) makes
  the same promise, and that copy does order by weight.
- **The accept-header step can return "None".** It returns
  `str(Locale.negotiate(...))`. When nothing negotiates, that is the
  string `"None"`, which is truthy. The current copy then takes it as the
  locale, outside the configured list (`WorkedCases.LocaleCanBeNone`).
  `getLocale`'s docstring (bp_includes/lib/i18n.py, line 123) says it
  cannot return `None`; it never returns the value `None`, but it can
  return this string. `BpI18n.SetLocaleRange` states which results fall
  outside the configured list. It does so for a Babel whose negotiation
  returns one of the offered tags as written (`LocaleLib.NegotiatesWithin`);
  see "Left out" for how real Babel differs.
- **Resolution can raise exceptions.**
  - a five-letter tag without a dash raises `IndexError`, in both copies;
  - a non-empty `hl` sent only in the form body raises `KeyError` when the
    query parameter is deleted;
  - the older copy raises `UnboundLocalError` whenever the forced tag is
    a non-empty configured locale, and `AssertionError` when it is an empty
    one (`BoilerplateI18n.ForcedTagRaises`);
  - the older copy raises `AssertionError` when the resolved tag is empty;
  - `Locale.negotiate` parses the tag it matched, so a match Babel has no
    data for raises `LocaleError`. This happens in the accept-header step
    (bp_includes/lib/i18n.py, line 104; boilerplate/lib/i18n.py, line 86)
    and in the country step (lines 152 and 121), in both copies
    (`LocaleLib.Negotiate`, `WorkedCases.UnparseableMatchRaises`);
  - building the display strings raises when `Locale.parse` rejects a
    configured tag, or rejects the current tag once another tag asks for
    its name in it. The locale `"None"` is such a tag, so with two or more
    configured locales it breaks `getLocaleStrings`
    (`WorkedCases.NoneHasNoDisplayStrings`).
- **The country is negotiated character by character.** The code passes
  the country string itself to `Locale.negotiate`
  (bp_includes/lib/i18n.py, line 152; boilerplate/lib/i18n.py, line 121),
  which iterates over it. `"US"` is negotiated as the two candidates `"U"`
  and `"S"` (`LocaleLib.Chars`).
- **The older copy's disabled mode writes no cookie.** The current copy
  writes the `hl` cookie on every successful call, `en` included when
  localisation is disabled (line 168). The older copy returns `'en'` at
  line 106, before writing anything.

## Model

| member | source | states |
|---|---|---|
| AcceptLanguage.Run | bp_includes/lib/i18n.py:14 | the length of the longest run of a character class, up to the pattern's `{1,8}` bound: every character in it belongs to the class, and the next one (if the bound allows one) does not |
| AcceptLanguage.TagEndRaw | bp_includes/lib/i18n.py:14 | group 1 captured at a letter always has the shape 1-8 letters, optionally `-` and 1-8 alphanumerics |
| AcceptLanguage.QValueEnd | boilerplate/lib/i18n.py:10 | a qvalue matched under either grammar is a string the grammar accepts: `1`/`0` with optional fraction, or `1` / `0.` digits |
| AcceptLanguage.QGroup | bp_includes/lib/i18n.py:14 | the optional `;q=` group, when it matches, captures an accepted qvalue and ends after it |
| AcceptLanguage.MatchAt | bp_includes/lib/i18n.py:14-16 | one match yields a tag of the group-1 shape and, if present, a qvalue of the grammar, and ends past its start |
| AcceptLanguage.Scan | bp_includes/lib/i18n.py:26 | every match `finditer` produces has a well-formed tag and qvalue |
| AcceptLanguage.NormaliseTag | bp_includes/lib/i18n.py:32-40 | a tag raises IndexError exactly when it has five characters and no dash; a tag whose length is neither 2 nor 5 is dropped; a 2-letter tag is lower-cased |
| AcceptLanguage.NormaliseFiveWithDash | bp_includes/lib/i18n.py:36-38 | a five-character tag with a dash becomes lower-case language, `_`, upper-case region |
| AcceptLanguage.NormaliseFiveLetters | boilerplate/lib/i18n.py:27-28 | a five-letter tag without a dash raises IndexError |
| AcceptLanguage.NormalisedIsLocaleKey | bp_includes/lib/i18n.py:32-40 | a kept tag is `ll` or `ll_RR`: lower-case letters, then `_` and upper-case letters or digits |
| AcceptLanguage.CentiIsFloor | bp_includes/lib/i18n.py:43 | the integer weight equals the floor of 100 times the exact decimal value of the qvalue |
| AcceptLanguage.FractionValueBounds | bp_includes/lib/i18n.py:43 | the fraction digits of a qvalue are worth at least 0 and less than 1 |
| AcceptLanguage.QValueWeightBound | boilerplate/lib/i18n.py:10 | a qvalue's weight is at most 199 under the current grammar and at most 100 under the older one; under the older grammar it is at most 99 unless the qvalue is `1` |
| AcceptLanguage.Weight | bp_includes/lib/i18n.py:27-28 | a match without a qvalue weighs 100 |
| AcceptLanguage.Entries | bp_includes/lib/i18n.py:26-43 | the loop raises exactly when some matched tag raises during normalisation, and makes at most one assignment per match (what each assignment holds is stated by `EntriesSnoc` and `EntriesLastWins`) |
| AcceptLanguage.EntriesCons | bp_includes/lib/i18n.py:26-43 | the loop's first match either raises, is dropped, or puts its normalised tag with its weight in front of the assignments made from the rest |
| AcceptLanguage.EntriesSnoc | bp_includes/lib/i18n.py:26-43 | one more match at the end of the header makes the loop raise iff its tag raises; otherwise it adds nothing when the tag is dropped, and otherwise exactly one last assignment of its normalised tag and its weight |
| AcceptLanguage.EntriesShape | bp_includes/lib/i18n.py:32-43 | every assignment made from scanned matches has a normalised key and a weight within the grammar's bound; the only exception is IndexError |
| AcceptLanguage.DictLastWins | bp_includes/lib/i18n.py:42-43 | a tag is in the dictionary iff some assignment wrote it, and it holds the weight of the last such assignment |
| AcceptLanguage.LastKept | bp_includes/lib/i18n.py:42-43 | names the last match whose tag normalises to a given key, with no later match doing so, or says that no match does |
| AcceptLanguage.EntriesLastWins | bp_includes/lib/i18n.py:26-43 | when the loop completes, a key is in the dictionary iff some match normalises to it, and it holds the weight of the last such match |
| AcceptLanguage.Parse | bp_includes/lib/i18n.py:24-25 | an empty or missing header gives `None`, and any other header never gives `None` |
| AcceptLanguage.ParsedDictShape | bp_includes/lib/i18n.py:18-44 | a parsed dictionary has only normalised keys and bounded weights, and parsing fails only with IndexError |
| AcceptLanguage.ParseIsDict | bp_includes/lib/i18n.py:26-44 | a parsed dictionary is the one the loop's assignments build from the scanned matches |
| AcceptLanguage.ParseLastWins | bp_includes/lib/i18n.py:18-44 | in a parsed dictionary a key is present iff some match found in the header normalises to it, and it holds the weight of the last such match |
| BpI18n.ParseAcceptLanguageHeader | bp_includes/lib/i18n.py:18-44 | gives `None` exactly for an empty or missing header, raises only IndexError, and otherwise gives normalised keys with weights at most 199 |
| BoilerplateI18n.ParseAcceptLanguageHeader | boilerplate/lib/i18n.py:10-33 | gives `None` exactly for an empty or missing header, raises only IndexError, and otherwise gives normalised keys with weights at most 100 |
| HeaderRoundTrip.TagRendered | bp_includes/lib/i18n.py:14 | a written group-1 tag followed by `;`, `,` or the end of the header is captured whole from its first letter |
| HeaderRoundTrip.QValueRendered | boilerplate/lib/i18n.py:10 | a written qvalue of either grammar followed by `,` or the end is read whole |
| HeaderRoundTrip.MatchRendered | bp_includes/lib/i18n.py:14-16 | a written tag with an optional `;q=` qvalue, followed by `,` or the end, is exactly the match found at its first letter, ending where it was written |
| HeaderRoundTrip.ScanJoin | bp_includes/lib/i18n.py:26 | scanning from where a comma-joined list of written matches starts, to the end, yields that list |
| HeaderRoundTrip.ScanRoundTrip | bp_includes/lib/i18n.py:14-26 | `finditer` over matches written out and joined by commas finds exactly those tags and qvalues, in order, under either grammar |
| AcceptLanguage.Keys | bp_includes/lib/i18n.py:103 | the dictionary's keys are listed once each, exactly the keys present |
| BpI18n.RequestLocation | bp_includes/lib/i18n.py:78-87 | the location field is present exactly when the `X-AppEngine-<field>` header is, and is that header's value |
| BpI18n.Items | bp_includes/lib/i18n.py:103 | the items are exactly the dictionary's (tag, weight) pairs |
| BpI18n.SortedItems | bp_includes/lib/i18n.py:103 | sorting the items keeps the same pairs and orders them by non-increasing weight |
| BpI18n.CandidatesByWeight | bp_includes/lib/i18n.py:103-104 | the tags handed to negotiation are exactly the parsed tags, heavier ones no later than lighter ones |
| BpI18n.GetLocaleFromAcceptHeader | bp_includes/lib/i18n.py:90-105 | `None` exactly when the header is empty or missing; otherwise the string form of Babel's negotiation over the weight-ordered candidates; with a Babel that only returns offered locales, the result is a configured locale or `"None"`; it raises IndexError exactly when the parser does, and LocaleError exactly when the header parses and Babel cannot parse the tag the negotiation matched |
| BpI18n.GetLocale | bp_includes/lib/i18n.py:121-162 | with no configured locales the tag is `en` and the request is untouched; otherwise the request loses at most its `hl` query parameter; the only exceptions are KeyError, IndexError and LocaleError |
| BpI18n.Fallback | bp_includes/lib/i18n.py:144-162 | steps 4 to 7 of the chain: fails exactly when the accept-header step fails (with its exception), or when that step gives nothing and the country's negotiation raises LocaleError; otherwise the first truthy of the accept-header result, the country's negotiation, and the first configured tag, else `en`; with a Babel that only returns offered locales the tag is configured, `en` only when the first configured entry is empty, or `"None"` from a non-empty Accept-Language header |
| LocaleLib.Negotiate | bp_includes/lib/i18n.py:104 | `Locale.negotiate` gives nothing when nothing matches, raises LocaleError exactly when Babel matched a tag it cannot parse, and otherwise gives the matched tag, which parses |
| BpI18n.GeoTag | bp_includes/lib/i18n.py:150-152 | a missing or empty `Country` location gives no candidate; otherwise it raises LocaleError exactly when Babel matches a tag it cannot parse; with a Babel that only returns offered locales a candidate is configured |
| BpI18n.GetLocaleRange | bp_includes/lib/i18n.py:121-162 | with a Babel that only returns offered locales, the whole chain yields a configured tag, `en`, or `"None"` from a non-empty Accept-Language header; `en` outside the list comes only from disabled localisation or an empty first entry |
| BpI18n.SetLocale | bp_includes/lib/i18n.py:164-169 | every successful call sets the active locale to the resolved tag and appends exactly one `hl` cookie write with a 26-week max-age; disabled localisation resolves to `en` |
| BpI18n.SetLocaleConsumesQuery | bp_includes/lib/i18n.py:132-135 | once the query step is reached, a non-empty `hl` is removed from the query string whether or not it matched, and raises KeyError when it was only in the form body |
| BpI18n.SetLocaleKeepsQuery | bp_includes/lib/i18n.py:126-133 | when localisation is disabled, the tag argument matched, or `hl` is empty or missing, the request is returned unchanged |
| BpI18n.SetLocalePriority | bp_includes/lib/i18n.py:127-162 | a configured tag argument wins; otherwise a configured query `hl`, then a configured cookie `hl` when a non-empty `hl` can be deleted from the query; past those the call fails exactly when the accept-header step fails (with its exception) or gives nothing while the country's negotiation raises (LocaleError), and otherwise takes any truthy accept-header result, then a truthy negotiation of the country, then a non-empty first configured tag, then `en` |
| BpI18n.PastCookieSteps | bp_includes/lib/i18n.py:131-162 | past the cookie step, resolution fails or succeeds as steps 4 to 7 do on the original request: consuming `hl` changes nothing they read |
| BpI18n.SetLocaleRange | bp_includes/lib/i18n.py:121-162 | with a Babel that only returns offered locales, the resolved tag is configured, `en`, or `"None"` from a non-empty Accept-Language header; `en` outside the list comes only from disabled localisation or an empty first entry |
| BpI18n.GetLocaleStrings | bp_includes/lib/i18n.py:209-216 | fails exactly when resolution fails, or on a cache miss with more than one locale configured when Babel cannot parse a configured tag or the resolved one (LocaleError); a hit returns the stored table and leaves the cache unchanged; a miss stores under the resolved tag the table `LocaleStrings` builds; a cache whose entries are filed under their own tag stays so |
| BoilerplateI18n.ParsedWeightsAtMost100 | boilerplate/lib/i18n.py:10-33 | every weight the older parser produces lies in [0, 100] |
| BoilerplateI18n.CandidatesReverseSorted | boilerplate/lib/i18n.py:85 | the candidates are exactly the parsed tags, each once, in strictly decreasing string order |
| BoilerplateI18n.DescendingUnique | boilerplate/lib/i18n.py:85 | two strictly decreasing lists with the same members are equal, so the sorted order is unique |
| BoilerplateI18n.CandidatesDeterminedByTags | boilerplate/lib/i18n.py:81-86 | two headers that parse to the same set of tags negotiate over the same list, whatever their order and weights |
| BoilerplateI18n.GetLocaleFromAcceptHeader | boilerplate/lib/i18n.py:68-87 | `None` exactly when the header is empty or missing; otherwise the string form of Babel's negotiation over the reverse-sorted tags; it raises IndexError exactly when the parser does, and LocaleError exactly when the header parses and Babel cannot parse the tag the negotiation matched |
| BoilerplateI18n.Chain | boilerplate/lib/i18n.py:107-124 | with configured locales the chosen tag is always a configured locale; `qs` stays unassigned exactly when the forced tag was taken, and is otherwise the `hl` parameter; before the accept-header step it cannot fail; past the cookie step it fails exactly when the accept-header step does (with its exception) or when, past that step, the territory's negotiation raises (LocaleError); otherwise past the accept-header step it is the negotiated territory if configured, else the first configured locale |
| BoilerplateI18n.GeoTag | boilerplate/lib/i18n.py:120-121 | the string form of Babel's negotiation over the territory's characters, an unknown territory counting as `ZZ`; it raises LocaleError exactly when Babel matches a tag it cannot parse; with a Babel that only returns offered locales the result is configured or `"None"` |
| BoilerplateI18n.SetLocale | boilerplate/lib/i18n.py:103-133 | disabled localisation returns `en` and changes nothing; otherwise a success has a configured, non-empty tag, sets it active and appends a 26-week `hl` cookie; the request loses at most its `hl` query parameter |
| BoilerplateI18n.ForcedTagRaises | boilerplate/lib/i18n.py:108-126 | a configured forced tag always raises: AssertionError if it is empty, UnboundLocalError otherwise |
| BoilerplateI18n.NoForceNoUnbound | boilerplate/lib/i18n.py:111 | without a forced tag, UnboundLocalError cannot happen |
| BoilerplateI18n.SetLocaleConsumesQuery | boilerplate/lib/i18n.py:126-128 | a non-empty `hl` that was read is removed from the query string on success, and the call fails when `hl` is not in the query |
| BoilerplateI18n.SetLocalePriority | boilerplate/lib/i18n.py:111-128 | with no configured forced tag: a configured query `hl` wins, then a configured cookie `hl`, then a configured accept-header result, then the negotiated territory if configured, then the first configured locale; an accept-header step that raises makes the call raise the same exception, and a territory negotiation that raises makes it raise LocaleError; an empty winner raises AssertionError, and a non-empty one is returned when a non-empty `hl` can be deleted from the query |
| BoilerplateI18n.SetLocaleOfChain | boilerplate/lib/i18n.py:111-133 | with no configured forced tag, `set_locale` raises what the chain raises, returns the tag the chain settled on when `hl` can be consumed, and raises AssertionError when that tag is empty |
| BoilerplateI18n.GetLocaleStrings | boilerplate/lib/i18n.py:166-173 | fails exactly when resolution fails, or on a cache miss with more than one locale configured when Babel cannot parse a configured tag or the resolved one (LocaleError); a hit returns the stored table and leaves the cache unchanged; a miss stores under the resolved tag the table `LocaleStrings` builds |
| DisplayStrings.Without | bp_includes/lib/i18n.py:199-204 | the configured tags other than the current one, keeping their multiplicities and order |
| DisplayStrings.TriplesFor | bp_includes/lib/i18n.py:204-207 | one display triple per tag, in order, each labelled with its tag |
| DisplayStrings.Build | bp_includes/lib/i18n.py:192-207 | raises LocaleError exactly when more than one locale is configured and Babel cannot parse a configured tag, or the current tag once another tag needs its name in it; otherwise the table is enabled iff more than one locale is configured; the current locale's own name is set iff enabled and the tag is configured; `others` holds a triple for every other configured tag, in order, and is empty when disabled |
| DisplayStrings.Collect | bp_includes/lib/i18n.py:198-207 | the walk over the configured tags: it raises LocaleError exactly when some tag does not parse, or the current tag does not parse and some other tag is configured; otherwise the current name is set iff the tag is configured, and is that tag's own display name; the triples are those of every other tag, in order |
| DisplayStrings.DisplayableStep | bp_includes/lib/i18n.py:199-205 | the walk gets past one more tag exactly when it got past the earlier ones, that tag parses, and, if it is not the current tag, the current tag parses; one failing tag fails the whole walk |
| DisplayStrings.BuildStep | bp_includes/lib/i18n.py:201-207 | one more tag adds its triple unless it is the current tag, and the current tag has been seen iff it was seen before or is this tag |
| DisplayStrings.WithoutSnoc | bp_includes/lib/i18n.py:199-207 | removing the current tag from a list that grows by one tag adds that tag unless it is the current one |
| DisplayStrings.Add | bp_includes/lib/i18n.py:215 | `memcache.add` stores a value only under an absent key and never overwrites |
| DisplayStrings.GetOrBuild | bp_includes/lib/i18n.py:211-216 | a hit returns the cached table untouched; a miss builds a table for the tag and stores it under that tag; a cache whose entries are filed under their own tag stays so |
| Web.Param | bp_includes/lib/i18n.py:132 | `request.get` finds a parameter iff the query or the form has it, and the query's value comes first |
| Web.DeleteQuery | bp_includes/lib/i18n.py:134-135 | deleting `hl` raises KeyError iff the query lacks it; otherwise only the `hl` pairs are removed |
| Web.RemoveKey | bp_includes/lib/i18n.py:135 | removing a key leaves exactly the other pairs and none for that key |
| Web.QueryString | bp_includes/lib/basehandler.py:236-237 | the query string re-encoded from GET is empty exactly when GET has no parameters |
| Web.PathQs | bp_includes/lib/basehandler.py:236 | for a query re-encoded from GET, `path_qs` is the path alone when GET is empty, and otherwise the path, `?` and a non-empty query string |
| Sorting.SortSorted | bp_includes/lib/basehandler.py:202 | sorting by a total preorder yields an ordered permutation of the input |
| BaseHandler.CsrfCheck | bp_includes/lib/basehandler.py:56-59 | only POSTs outside `/taskqueue` are checked; such a POST proceeds only when the session has a non-empty token and the request carries that same token; an empty or missing session token is always refused |
| BaseHandler.ZoneLabel | bp_includes/lib/basehandler.py:180 | a zone's label has the zone's length, no underscores, and the zone's other characters in place |
| BaseHandler.ZoneLabelRoundTrip | bp_includes/lib/basehandler.py:180 | for a zone name without spaces, turning the label's spaces back into underscores gives the name |
| BaseHandler.TimezoneChoices | bp_includes/lib/basehandler.py:179-181 | a blank choice first, then one choice per zone, in order, each paired with its label |
| BaseHandler.CountriesTuple | bp_includes/lib/basehandler.py:197-203 | the territories without `001` plus one blank choice, as a permutation, sorted by name, with a blank name first |
| BaseHandler.BlankFirst | bp_includes/lib/basehandler.py:202 | a name-sorted list that contains the blank choice starts with a blank name |
| BaseHandler.TemplatePathQs | bp_includes/lib/basehandler.py:236-238 | for a `path_qs` whose query is GET re-encoded, the template's `path_qs` is always the path, `?`, and that query string, so parameters can be appended to it directly |
| WorkedCases.FractionAboveOneCurrent | bp_includes/lib/i18n.py:14 | under the current pattern `en;q=1.5` parses to `{en: 150}` |
| WorkedCases.FractionAboveOneOlder | boilerplate/lib/i18n.py:10 | under the older pattern `en;q=1.5` parses to `{en: 100}` |
| WorkedCases.BareZeroOlder | boilerplate/lib/i18n.py:10-33 | under the older pattern `en;q=0` parses to `{en: 100}`: the `q` is scanned as a one-letter tag and dropped |
| WorkedCases.FiveLettersRaise | boilerplate/lib/i18n.py:27-28 | the header `abcde` raises IndexError in both copies |
| WorkedCases.OtherLengthDropped | bp_includes/lib/i18n.py:39-40 | the header `xx-yyyy` parses to an empty dictionary |
| WorkedCases.DocumentedExample | bp_includes/lib/i18n.py:21-22 | the documented header `en-US,en;q=0.8,es-es;q=0.5` parses, under both grammars, to `{en_US: 100, en: 80, es_ES: 50}`, as both copies' docstrings say (also boilerplate/lib/i18n.py, lines 14-15) |
| WorkedCases.NoneHasNoDisplayStrings | bp_includes/lib/i18n.py:200-205 | with `fr` and `it` configured, a browser sending `de` resolves to `"None"`, for which the display strings cannot be built |
| WorkedCases.UnparseableMatchRaises | bp_includes/lib/i18n.py:104 | with `en` and `de` configured, a German browser and a Babel with no data for `de`, `set_locale` raises LocaleError in both copies (also boilerplate/lib/i18n.py, line 86) |
| WorkedCases.LocaleCanBeNone | bp_includes/lib/i18n.py:145-147 | with a Babel that never finds a match, a browser sending `de` to a site configured for `fr` gets the locale `"None"` |

## Left out

- Float arithmetic is not modelled. `AcceptLanguage.Weight` and
  `AcceptLanguage.CentiIsFloor` give the exact `floor(100 * q)`. Python's
  `int(100*float(q))` rounds twice in binary and can land one below or one
  above that: `q=0.29` gives 28, and `q=0.2999999999999999999` gives 30.
- AcceptLanguage.QValueWeightBound: its bounds hold in exact arithmetic.
  With floats, `q=1.9999999999999999` gives 200 under the current
  grammar, and `q=0.9999999999999999999` gives 100 under the older one.
- Dictionary iteration order is not modelled. `BpI18n.CandidatesByWeight`
  orders equal-weight tags by first assignment in the header. Python 2
  uses hash order instead, which a model cannot reproduce. The order
  among different weights is exact.
- `AcceptLanguage.Scan` covers only the two patterns these modules use,
  not regular expressions in general.
- Header lookup uses the exact header name. webob matches header names
  case-insensitively.
- Web.QueryString and BaseHandler.TemplatePathQs: the query string is
  rebuilt from the GET parameters as `key=value` pairs, without
  percent-encoding. webob's `path_qs` uses the raw `QUERY_STRING`, which
  is re-encoded from GET only after GET has been changed (as when `hl` is
  deleted). The raw form can differ. For `/p?&`, GET is empty and the code
  renders `/p?&?`, where the model gives `/p?`. For `/p?b`, the code keeps
  `b`, where the model writes `b=`. `Web.PathQs` shares this limit.
- memcache is modelled as a map that is passed along. Its eviction,
  sharing between processes, and races between concurrent `add` calls are
  not modelled.
- Babel is modelled as given functions: `negotiate`, whether
  `Locale.parse` accepts a tag, `display_name` and `get_display_name`. Its
  negotiation rules and which tags it parses are not modelled.
- BpI18n.GetLocaleRange, BpI18n.SetLocaleRange, BpI18n.Fallback and
  BpI18n.GetLocaleFromAcceptHeader bound the resolved tag only for a Babel
  that returns one of the offered tags as written
  (`LocaleLib.NegotiatesWithin`). Real Babel can return another spelling
  of a configured tag. Its matching can hand back the browser's spelling
  (`de_DE` when `de_de` is configured). Its `Locale.parse` canonicalises
  (a configured `zh_TW` comes back as `zh_Hant_TW`). Such a tag is
  outside the configured list, and these bounds say nothing about it.
- BpI18n.Fallback: step 5 returns Babel's `Locale` object itself
  (bp_includes/lib/i18n.py, lines 152-154), not a string. The model uses
  its string form for it, as it does for every other step.
- AcceptLanguage.MatchAt and AcceptLanguage.Scan state only the shape of
  what they capture. Which matches a header yields is pinned down by
  `HeaderRoundTrip.ScanRoundTrip`, for headers written as comma-joined
  matches, and by the concrete headers in `WorkedCases`; other text is
  covered only by the shape.
- The `i18n.get_i18n().set_locale` call is modelled only as the active
  locale recorded in the response. Translation loading is not modelled.
- `get_territory_from_ip` in the older copy (boilerplate/lib/i18n.py,
  lines 35-66) is an input to `BoilerplateI18n.SetLocale`. Its network
  fetch, deadline, logging and `territory` cookie are I/O.
- `BaseHandler.CountriesTuple` receives the territories as a list of
  pairs.
  - The deletion of `001` from Babel's shared territory dictionary is a
    side effect on later calls. It is not modelled.
  - The time-zone list is likewise the input `zones`, standing for
    `pytz.all_timezones`.
- In `dispatch`, only the CSRF decision is modelled. The session store,
  the dispatch itself and session saving are not.
- The remaining handler base class members are outside the locale logic
  and are not part of this model: authentication, user lookup, logging,
  templating and device detection.
- A `locales` setting of `None` is treated as the empty list. Both are
  falsy wherever the code tests them.
