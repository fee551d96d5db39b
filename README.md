# AI domain generator — a verified model of its core

The system suggests domain names for a business idea. A browser page sends the idea,
a naming style and the extensions the user selected to the endpoint
`/api/suggest-fast`. The server asks a language model for candidate names. It keeps
the candidates whose extension was asked for, or falls back to names it generates
itself. It checks each name's availability and returns the available ones in two
batches of ten, which the page filters again, renders row by row and extends with a
"load more" button.

This project models three parts of that system:

- `server.dfy` (module `Server`) models the live server, `app.py`:
  - request validation and extension normalisation;
  - the extension filter on the model's reply, and the rule that accepts the reply or
    switches to the enhanced fallback generator;
  - that generator itself;
  - the sorted, batched response.
- `legacy_server.dfy` (module `LegacyServer`) models the older server,
  `tempCodeRunnerFile.py`:
  - its priority sort (".com" first, then ".ma");
  - the flattening of main and alternative names into one check list, with the mapping
    that records each name's source;
  - WHOIS server selection and the classification of a WHOIS reply;
  - its fallback generator, whose entries carry alternatives.
- `client.dfy` (module `Client`) models the results page, `static/app.js`:
  - `filterDomainsByExtensions`, as a method with nested loops, proved against a
    specification function;
  - the page's module-level state, as the class `ResultsPage`. Its methods are the
    event handlers: scroll arbitration, the auto-scroll, the status-message cycle, the
    submit handler and "load more".

Three modules are shared:

- `domains.dfy` (module `Domains`) holds the suggestion record, `extract_extension`,
  extension normalisation, an insertion sort by a ranking key, and the split of a
  sorted list into the `initial`/`more` batches.
- `text.dfy` (module `Text`) and `seqs.dfy` (module `Seqs`) hold the string and sequence
  primitives the source relies on:
  - Python's and JavaScript's `split` on one character, the last label of a name;
  - `strip` over each language's whitespace set, Python's `split()` into words;
  - ASCII lower-casing, code-point string order, decimal rendering of a number;
  - list filtering and subsequences.

The model does not call the language model or WHOIS. They are inputs to it:

- the parsed model reply is an `Option` of a list (None when the call failed or no
  JSON array was found), whose elements are objects or malformed values;
- availability is a function from a name to a verdict.

The page filters each name by its last dot-label (`split(".").pop()`,
static/app.js:761), not by the compound suffix that `extract_extension` computes on
the server (app.py:447-451). So "x.co.ma" is tested as "ma" on the page and as
".co.ma" on the server. The model follows each.

## Model

| member | source | states |
|---|---|---|
| Text.SplitJoin | app.py:448 | Splitting on a character gives one more part than the name has separators. No part contains the separator, and joining the parts with it gives back the name. |
| Text.LastLabelFacts | static/app.js:761 | The last label is dot-free and is a suffix of the name. It is the whole name exactly when the name has no dot, and otherwise a dot comes before it. |
| Text.Lower | tempCodeRunnerFile.py:91 | Lower-casing keeps the length and leaves no upper-case ASCII letter. Each of 'A' to 'Z' moves 32 code points up to its lower-case letter, and every other character is kept. |
| Text.LowerIdempotent | tempCodeRunnerFile.py:139 | Lower-casing twice is lower-casing once. |
| Text.Strip | app.py:714 | A stripped string is the input with only whitespace cut from its two ends. When not empty, it starts and ends with non-whitespace. It is empty exactly when every input character is whitespace. |
| Text.StripIdempotent | static/app.js:849 | Stripping a stripped string changes nothing. |
| Text.Words | app.py:631 | Every word of the whitespace split is non-empty and holds no whitespace. A string ending in a non-whitespace character has at least one word. |
| Text.WordsAllWhitespace | app.py:631 | A string of whitespace only has no words. |
| Text.WordsOneWord | app.py:631 | A non-empty string without whitespace is one word, itself. |
| Text.WordsSplitAt | app.py:631 | The words around a whitespace character are the words before it followed by the words after it. With the two rows above, this fixes the split of every string: the maximal runs of non-whitespace, in order. |
| Text.Prefix | app.py:638 | `s[:k]` has length min(k, \|s\|) and is an initial segment of `s`. |
| Text.LexLeTotal | app.py:761 | Any two strings are ordered one way or the other. |
| Text.LexLeAntisymmetric | app.py:761 | Two strings ordered both ways are equal. |
| Text.LexLeTransitive | app.py:761 | String order is transitive. |
| Text.NatToString | app.py:689 | `str(i)` is a non-empty string of decimal digits with no leading zero, and the digits denote i. |
| Seqs.FilterFacts | app.py:632 | A list comprehension with a condition keeps an ordered subsequence of its input. An element is kept exactly when it satisfies the condition. |
| Domains.ExtractExtension | app.py:447-451 | The result is a suffix of the name. For a name of three or more labels ending in "ma", it is a dot-free label, a dot and "ma", preceded by a dot. For any other name, it is the last label. |
| Domains.ExtractCompound | app.py:449-450 | A name ending in ".x.ma", where x has no dot, gives "x.ma". |
| Domains.ExtractSimple | app.py:451 | A name ending in ".x", where x has no dot and is not "ma", gives "x". |
| Domains.ExtractTwoLabelMa | app.py:449-451 | A two-label name "a.ma" gives "ma". |
| Domains.ExtractNoDot | app.py:451 | A name without a dot is its own extension. |
| Domains.ExtractExtensionCoMa | tempCodeRunnerFile.py:48-52 | "example.co.ma" gives "co.ma". |
| Domains.ExtractExtensionCom | tempCodeRunnerFile.py:48-52 | "example.com" gives "com". |
| Domains.ExtractExtensionMa | tempCodeRunnerFile.py:48-52 | "shop.ma" gives "ma". |
| Domains.NormaliseExtension | app.py:731 | The result starts with a dot. It equals the input exactly when the input already starts with one, and is the input with a dot in front otherwise. |
| Domains.NormaliseExtensions | app.py:730-731 | Normalising keeps the length and order. Every entry ends up starting with a dot, and an entry that already had one is kept as it is. |
| Domains.NormaliseIdempotent | tempCodeRunnerFile.py:292-293 | Normalising twice is normalising once. |
| Domains.KeyLeTotal | tempCodeRunnerFile.py:331-335 | The (rank, domain) sort key orders any two entries. |
| Domains.KeyLeTransitive | tempCodeRunnerFile.py:331-335 | The (rank, domain) sort key is transitive. |
| Domains.SortBy | tempCodeRunnerFile.py:331-335 | Sorting by a key gives a permutation of the input, ordered by (rank, domain). |
| Domains.SortByDomain | app.py:761 | Sorting by domain gives a permutation whose domains ascend in string order. |
| Domains.Batch | app.py:767-772 | `initial` followed by `more` is the first min(20, total) sorted entries. `initial` holds min(10, total), `more` at most 10 and is non-empty only when `initial` is full. `total` is the full count, and the style is echoed. |
| Domains.AvailableOfMembers | app.py:752-759 | Every collected entry has status "available" and no alternatives. A name is collected exactly when its verdict is true. |
| Domains.CollectAvailable | app.py:752-759 | The loop collects exactly the available entries, in result order. |
| Domains.DistinctInOrder | app.py:505-520 | The keys of the results dict are the checked names, each once. |
| Server.DottedExtensionIsExtract | app.py:527-533 | The extension used by the filter and by the distribution count is "" for a name without a dot. Otherwise it is `extract_extension` with a dot in front. |
| Server.ValidateDomainExtensions | app.py:522-540 | The filter raises exactly when some element is not an object or has a non-string domain. Otherwise the kept objects are an ordered subsequence of the reply, and an object is kept exactly when its dotted extension is allowed. |
| Server.Bump | app.py:598 | `counts.get(ext, 0) + 1` adds `ext` as a key, raises its count by one and leaves every other count as it was. |
| Server.ExtensionCounts | app.py:592-598 | The loop fails exactly when an object lacks "domain". Otherwise the map's keys are the extensions present, and each value is that extension's number of objects, which is at least one. |
| Server.CheckAccepted | app.py:603 | The reply is accepted exactly when it has at least 5 objects, all with a domain, and at least min(2, \|extensions\|) distinct extensions. |
| Server.SuggestDomains | app.py:542-620 | Empty extensions default to the seven listed ones. The filtered reply is returned when it parsed, has no malformed element and is accepted. In every other case the enhanced fallback is returned. An accepted result holds only reply objects with allowed extensions. |
| Server.KeyWords | app.py:630-631 | Every key word is longer than two characters and is not a stop word. |
| Server.BaseNames | app.py:633-670 | There are twelve base names exactly when the idea has a key word, and three otherwise. |
| Server.StyleNamesStem | app.py:636-664 | Every name of a style is the stem with a prefix or a suffix added. |
| Server.BaseNamesStem | app.py:633-664 | With a key word, the stem is its first six characters (at least three), and every base name starts or ends with that stem. |
| Server.PerExtension | app.py:673 | `max(1, n // len(extensions))` is at least one. |
| Server.FallbackExts | app.py:623-624 | No extensions give [".com", ".ma"]; a non-empty list is used as given. |
| Server.FallbackFrom | app.py:672-693 | The generated list has length max(n, \|ext\|·dpe), and every entry has a domain. |
| Server.FallbackDomains | app.py:622-693 | The whole fallback has length max(n, \|ext\|·dpe) for its extension list, and every entry has a domain. |
| Server.FallbackLength | app.py:685-691 | With n at least the number of extensions, the fallback has exactly n entries. |
| Server.FallbackBlocks | app.py:675-682 | Entry j·dpe + i (j < \|ext\|, i < dpe) is base name (j·dpe + i) mod \|base\| followed by extension j. It therefore ends with that block's extension. |
| Server.FallbackFiller | app.py:685-691 | Filler entry i is base name i mod \|base\|, then the decimal i, then extension i mod \|ext\|. |
| Server.GenerateEnhancedFallbackDomains | app.py:622-693 | The method returns exactly the fallback list described above. |
| Server.AppendFallbackDomains | app.py:672-691 | The nested block loop and the filler loop build exactly that list. |
| Server.ValidateRequest | app.py:714-731 | Each outcome holds exactly when the checks before it pass and its own fails, in the source's order. A non-string idea raises. An empty or over-long stripped idea is an invalid idea. An array or object style raises, and any other unknown style is invalid. Extensions that are not a list of strings are invalid, and more than ten are too many. A passing request carries the stripped idea, the style and the normalised extensions, each starting with a dot. |
| Server.BlankIdeaRejected | app.py:714-720 | An idea string made only of whitespace is rejected as an invalid idea. |
| Server.MainDomains | app.py:740-744 | The check list is each object's domain, in order. An object without one makes the step fail. |
| Server.BuildResponse | app.py:752-772 | The response is the batched, domain-sorted list of available entries. Every entry listed has status "available" and a true verdict, the listed entries ascend by domain, and `total` counts all available entries. |
| Server.ApiSuggestFast | app.py:707-788 | A raising check gives the framework's plain 500, and a failed check gives 400 with that check's error. A valid request always succeeds. Its response is the batched, domain-sorted list of available names among the suggestions' main domains, with the style echoed. |
| LegacyServer.Rank | tempCodeRunnerFile.py:331-333 | The sort rank is 0, 1 or 2. |
| LegacyServer.RankCom | tempCodeRunnerFile.py:332 | A ".com" name ranks 0. |
| LegacyServer.RankMa | tempCodeRunnerFile.py:333 | A two-label ".ma" name ranks 1. |
| LegacyServer.RankCompoundMa | tempCodeRunnerFile.py:332-333 | A name ending ".x.ma" ranks 2, because its extension is "x.ma" and not "ma". |
| LegacyServer.PrioritySort | tempCodeRunnerFile.py:331-335 | The result is a permutation of the input, ordered by rank and, within a rank, by domain. |
| LegacyServer.ComFirst | tempCodeRunnerFile.py:330-335 | After the sort, every ".com" entry precedes all other entries, and every rank-1 ".ma" entry precedes every rank-2 entry. |
| LegacyServer.BuildLegacyResponse | tempCodeRunnerFile.py:320-346 | The response is the batched, priority-sorted list of available entries. Each listed entry is "available", has no alternatives and has a true verdict. |
| LegacyServer.FlattenLength | tempCodeRunnerFile.py:302-312 | The check list has Σ(1 + \|alt\|) names. |
| LegacyServer.LastOwner | tempCodeRunnerFile.py:305-312 | The object recorded for a name is one of the suggestions and lists that name. |
| LegacyServer.AssignFacts | tempCodeRunnerFile.py:308-312 | Writing an object under its names adds exactly those names, maps them to the object, and leaves every other name's entry alone. |
| LegacyServer.MappingOfFacts | tempCodeRunnerFile.py:302-312 | The mapping's keys are exactly the checked names. Each maps to the last suggestion that lists it. |
| LegacyServer.FlattenChecks | tempCodeRunnerFile.py:302-312 | The loop fails exactly when an object lacks "domain". Otherwise the check list is each main domain followed by its alternatives, in order, and the mapping is the one above. |
| LegacyServer.AddEntry | tempCodeRunnerFile.py:305-312 | One step appends the object's main name, then its alternatives, and records the object under each. |
| LegacyServer.WhoisServerIsTable | tempCodeRunnerFile.py:91-113 | The server for a name comes from the first matching suffix of the lower-cased name in the table: (".ma", registre, 8 s), (".com"/".net", verisign, 5 s), (".org", pir, 5 s), (".info", afilias, 5 s), (".me", nic.me, 5 s). Any other name uses registre with 8 s. The port is always 43. |
| LegacyServer.MaSubSuffixesRedundant | tempCodeRunnerFile.py:94 | A name ending in any listed ".ma" sub-suffix already ends in ".ma". |
| LegacyServer.MaSubSuffixEndsInMa | tempCodeRunnerFile.py:94 | Every listed sub-suffix ends in ".ma". |
| LegacyServer.WhoisQuery | tempCodeRunnerFile.py:121 | The query is the name followed by CR LF, as in section 2 of RFC 3912. |
| LegacyServer.AnyContains | tempCodeRunnerFile.py:153 | `any(ind in text ...)` is true exactly when some indicator occurs in the text. |
| LegacyServer.ClassifyReplyCases | tempCodeRunnerFile.py:139-157 | In the lower-cased reply, an availability phrase means available. Without one, the name is available exactly when no registration phrase occurs. |
| LegacyServer.ClassifyReplyCaseInsensitive | tempCodeRunnerFile.py:139 | The verdict does not depend on letter case. |
| LegacyServer.UnavailableCountsAsAvailable | tempCodeRunnerFile.py:144-157 | A reply containing "unavailable" counts as available, because it contains "available". |
| LegacyServer.SliceTo | tempCodeRunnerFile.py:264 | Python's `s[:n]` has length min(n, \|s\|) for n ≥ 0, and \|s\| + n clamped at zero for negative n. It is an initial segment of `s`. |
| LegacyServer.LegacyBaseNames | tempCodeRunnerFile.py:233-261 | Every style gives twelve base names. |
| LegacyServer.LegacyFallbackExts | tempCodeRunnerFile.py:230-231 | No extensions give the six defaults; a non-empty list is used as given. |
| LegacyServer.AltExtensions | tempCodeRunnerFile.py:266 | The alternatives to a main extension are at most two, an ordered subsequence of the first two extensions, and exactly those of them that differ from the main one. |
| LegacyServer.LegacyFallback | tempCodeRunnerFile.py:263-272 | The fallback has as many entries as Python's `base_names[:n]` has. |
| LegacyServer.LegacyFallbackEntries | tempCodeRunnerFile.py:263-270 | Entry i is base name i followed by extension i mod \|ext\|. Its alternatives are that base with each alternative extension, in order. So there are at most two, each of the first two extensions other than the main one appears, and none repeats the main domain. |
| LegacyServer.FallbackEntryAlts | tempCodeRunnerFile.py:264-270 | One fallback entry: the main domain is the base with extension i mod \|ext\|. The alternatives are the base with each alternative extension, in order, so there are at most two. Each comes from the first two extensions, and none is the main domain. |
| LegacyServer.FallbackEntryComplete | tempCodeRunnerFile.py:266-269 | Every one of the first two extensions that differs from the main one gives an alternative of the entry. |
| LegacyServer.AppendLegacyEntries | tempCodeRunnerFile.py:263-270 | The loop over `enumerate(base_names[:n])` makes one entry per base name, entry k being the fallback entry for base name k. |
| LegacyServer.GenerateFallbackDomains | tempCodeRunnerFile.py:229-272 | The loop builds exactly that fallback. |
| LegacyServer.LegacyApiSuggestFast | tempCodeRunnerFile.py:282-362 | For string-typed request values, the endpoint succeeds exactly when every suggestion has a domain. The response is then the priority-sorted batches of the available names among every main and alternative name. A 500 carries the request's style. |
| Client.ExpandRows | static/app.js:760-772 | A suggestion offers itself first and then one row per alternative, in order. Each such row is "available" with no alternatives of its own. |
| Client.FilterDomainsByExtensions | static/app.js:757-775 | The nested loops return exactly the filter's specification: candidates in order (each row, then its alternatives), keeping a candidate the first time its name appears and only when its last label is selected. |
| Client.AdmitSuggestion | static/app.js:760-773 | One outer step extends the filtered list and the seen set as the specification does for one row and its alternatives. |
| Client.AdmitRow | static/app.js:761-765 | A main row is kept when its last label is selected and its name is unseen, and the seen set stays the set of kept names. |
| Client.AdmitAlternatives | static/app.js:766-772 | The inner loop admits the alternatives in order, each the same way. |
| Client.AdmittedDistinct | static/app.js:758-775 | No two kept rows share a domain. |
| Client.AdmittedSelected | static/app.js:761-769 | Every kept row is a candidate whose last label is selected. The kept rows are an ordered subsequence of the candidates. |
| Client.AdmittedComplete | static/app.js:760-773 | Every candidate whose last label is selected has its name among the kept rows. |
| Client.AdmittedFirst | static/app.js:760-773 | The row kept for a name is the first candidate with that name. |
| Client.AdmittedEmptySelection | static/app.js:762-768 | With nothing selected, nothing is kept. |
| Client.CandidatesShape | static/app.js:766-772 | Every candidate is an input row unchanged, or an "available" row with no alternatives whose name is one of an input row's alternatives. |
| Client.FilterProperties | static/app.js:757-775 | The filter's output has distinct names, all with a selected last label, and is empty for an empty selection. It is an ordered subsequence of the candidates that omits no selected name, keeps the first occurrence of each, and holds only input rows or alternative rows. |
| Client.ResultsPage.constructor | static/app.js:510-522 | The page starts with both scroll flags off, the positions at zero, no rows, nothing held back, the first message and the default style. |
| Client.ResultsPage.DetectUserScroll | static/app.js:524-539 | A scroll event sets the user-scroll flag only outside an auto-scroll, at least 1000 ms after its start, and more than 50 px from the expected position. It never clears the flag. |
| Client.ResultsPage.OnWheelOrTouch | static/app.js:541-564 | A wheel or touch sets the flag exactly when no auto-scroll is running, and never clears it. |
| Client.ResultsPage.AutoScrollToNewContent | static/app.js:566-604 | Once the user has scrolled, nothing changes. Otherwise the start time is stamped. With no rows, or the last row within 50 px of the bottom, the auto-scroll flag is cleared at once. Otherwise it scrolls to max(0, target) ≥ 0, records that as the expected position and keeps the flag set. |
| Client.ResultsPage.AutoScrollCompleted | static/app.js:597-600 | The 800 ms timer clears the auto-scroll flag. |
| Client.ResultsPage.ResetScrollState | static/app.js:606-613 | Clears both flags and the start time, and records the current offset as the last and the expected position. |
| Client.ResultsPage.StartMessageCycling | static/app.js:670-680 | The status box shows the first message and starts rotating. |
| Client.ResultsPage.OnMessageTick | static/app.js:681-684 | While the status box is shown, each tick moves to the next of the five messages, wrapping after the fifth, so the index stays in range. |
| Client.ResultsPage.HideAIThinking | static/app.js:687-691 | The status box is hidden. |
| Client.ResultsPage.SelectStyle | static/app.js:641-651 | A style button makes its style the selected one. |
| Client.ResultsPage.CreateDomainRow | static/app.js:703-748 | One row is appended, and the displayed counter goes up with it. |
| Client.ResultsPage.DisplayAvailableDomainsStreaming | static/app.js:750-755 | The rows are appended one per domain, in order. |
| Client.ResultsPage.ClearForRequest | static/app.js:858-875 | Before the fetch, the scroll state is reset, the counter zeroed and the generate button disabled. The "load more" section is hidden and emptied, the rows cleared and the message cycle started. |
| Client.ResultsPage.ShowFailure | static/app.js:914-924 | On a cleared page, a failed fetch hides the status box and shows the service-unavailable panel, with no rows. |
| Client.ResultsPage.ShowBatches | static/app.js:886-913 | With both batches empty, the no-domains panel is shown. Otherwise the first batch is rendered and the second held back, with the section shown and its button enabled when the second is non-empty. |
| Client.ResultsPage.Request | static/app.js:858-930 | An issued request ends with the scroll state reset, the status box hidden and the generate button enabled. A failure shows the error panel and no rows. A reply shows the filtered batches as above. The load-more button is enabled when the filtered second batch is non-empty and is otherwise left as it was; after a failure it is left as it was. |
| Client.ResultsPage.RequestFailed | static/app.js:914-930 | The failure path of the handler ends as `Request` describes, the load-more button included. |
| Client.ResultsPage.RequestReplied | static/app.js:877-930 | The reply path of the handler ends as `Request` describes, the load-more button included. |
| Client.ResultsPage.Submit | static/app.js:847-931 | No request is issued, and nothing changes, exactly when the trimmed idea is blank or no extension is selected. An alert comes only for the empty selection. Otherwise the request carries the trimmed idea, the style and the selection, and the page ends as `Request` describes, the load-more button included. |
| Client.ResultsPage.BeginLoadMore | static/app.js:933-938 | A click starts a pass exactly when none is running and rows are held back. A click that does not start one changes nothing. |
| Client.ResultsPage.FinishLoadMore | static/app.js:940-944 | A pass renders the held-back rows once, in order, then hides the section, empties the list and clears the flag. |
| Client.ResultsPage.DoubleClickLoadMore | static/app.js:933-946 | A second click during a pass is ignored, so the held-back rows are rendered exactly once. |

## Left out

- The language-model call, its prompt and the parsing of its reply (fence stripping,
  the regex search for a JSON array, `json.loads`) are outside the model. They are
  foreign library calls, and the parsed list is an input. A parse failure and a failed
  call are both `None`.
- Request values are told apart only as far as the checks look at them: strings,
  arrays, objects, and one case for null, numbers and booleans. A request body that
  is not a JSON object is not modelled.
- The WHOIS lookups do network I/O and are not modelled: `whois.whois` in `app.py`, and
  the socket connect/send/receive loop with its timeouts in the older server. Only
  server selection, the query text and the reply classification are modelled.
  Availability is an input function.
- The thread pools and the caches (`lru_cache`, the lock-guarded `domain_cache`) exist
  for concurrency and are not modelled. A name's verdict is a fixed value, and the
  results dict is its items in first-check order.
- `is_domain_available` in `app.py` (no creation date means available, and an
  exception also means available) is not modelled. It inspects a library object.
- Flask routing, the rate limiter, `jsonify`, timing and logging are not modelled.
  `gunicorn.conf.py` is not part of this model.
- LegacyApiSuggestFast: the older endpoint takes idea and style as strings and
  extensions as a list of strings; the page always sends values of these types. Four
  behaviours of other shapes are not modelled. A non-string idea raises at `.strip()`
  inside the `try` and gives a 500 (tempCodeRunnerFile.py:200, 350-362). A list or
  object style is unhashable and raises at the style-prompt lookup, also a 500
  (tempCodeRunnerFile.py:56). A non-string element of the extensions raises at
  `ext.startswith('.')`, which runs before the `try`, so the error is unhandled
  (tempCodeRunnerFile.py:293). An extensions value that is a string, such as "com", is
  iterated character by character into `[".c", ".o", ".m"]`, and the request succeeds.
- In the older server, an "alt" value that is a string is iterated character by
  character, and a null "alt" raises. The model takes "alt" as a list of names.
- In the older server, the parsed reply is used as it is. An element that is not an
  object fails at `domain_obj["domain"]` just as one without a domain does, so the
  model's absent domain stands for both (a 500). A domain that is not a string is not
  modelled: the model takes every present domain as text.
- The live server's response objects carry no "alt" key. The shared suggestion record
  gives them an empty one.
- In the older server, `generate_fallback_domains` falls back to its own six default
  extensions only when called with none. `suggest_domains` always passes a non-empty
  list, so that path cannot be reached from the endpoint. It is modelled but not used.
- In the older server, `domain_mapping` is built but never read. It is modelled with its
  facts, and nothing downstream uses it.
- The handlers' own 500 responses are the `ServerError` case, which carries the style.
  An exception before the live handler's `try` is the `Unhandled` case. The error
  message text is not modelled.
- Lower-casing covers ASCII letters only. Python's and JavaScript's Unicode case
  mapping is not modelled.
- On the page, the DOM is not modelled: HTML rendering, the fade and typewriter timing,
  the clipboard and the registration link, the theme, checkbox visuals, and the mobile
  toggle. Page geometry (`pageYOffset`, `getBoundingClientRect`, the window height) is
  passed in as integers.
- `getSelectedExtensions` reads checkboxes. The selection is an input.
- `updateSelectedCount` shows the count and disables the generate button when nothing
  is selected. That is DOM state and is not modelled. The submit guard for an empty
  selection is.
- The page's `await`s and timers are not interleaved:
  - a submission runs to completion as one step;
  - an auto-scroll and its 800 ms completion timer are separate events;
  - the message tick and "load more" are separate events.
  A user event arriving in the middle of rendering, or an exception thrown after some
  rows were rendered, is therefore not modelled.
- `ResultsPage.Submit` models the fetch as its outcome: a failure, or the two batches.
  A reply that is not JSON or lacks a batch counts as a failure, as the `catch` would
  treat it.
