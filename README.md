# JARVIS_AI query router, modelled in Dafny

JARVIS_AI is a one-page Flask app. The `index` view takes the text of a form and strips and lower-cases it. It then sends the query to one of four handlers by ordered substring tests:

- `solve_math`, when the query mentions "differentiate" or "integrate";
- `get_youtube_links`, when it mentions "youtube";
- `get_google_links`, when it mentions "google";
- `get_wikipedia_summary`, for everything else.

The YouTube and Google topics are cut out of the query by three `replace(…, "")` calls and a `strip()`. The page shows one reply line and a list of links.

The project models that view and its four handlers. The libraries they call are values the caller supplies: sympy, the wikipedia client and pytube each become a field of the `Services` datatype, a function from the text handed over to what the library returns or raises.

Files:

- `pystr.dfy` (module `PyStr`): the Python `str` operations the code relies on. `p in s` is a left-to-right scan and `s.replace(p, "")` a left-to-right, non-overlapping deletion. `strip()` uses Python's whitespace set, `lower()` covers ASCII letters, and there are `startswith` and the slice `s[:n]`. Each comes with the lemmas that pin it down: `p in s` agrees with "occurs at some index", `strip` has one and only one possible result, replacement deletes the leftmost occurrence first and leaves a text alone exactly when a non-empty pattern is absent, and `lower` and `strip` commute.
- `quote.dfy` (module `PercentEncoding`): `urllib.parse.quote` with its default `safe='/'`, over the UTF-8 bytes of the text (RFC 3629, and sections 2.1 and 2.3 of RFC 3986). Its partner `Unquote` gives the text back.
- `handlers.dfy` (module `Handlers`): `solve_math`, `get_wikipedia_summary` and `get_google_links` as functions. `get_youtube_links` is a method whose loop appends one link per search result, proved against the function `VideoLinks`.
- `router.dfy` (module `Router`): the keyword table the intent is read from, the topic extraction, and the `index` view as a method whose `if` chain is proved against the table. It also holds the lemmas about routing and topics.
- `scenarios.dfy` (module `Scenarios`): example queries worked through the model.

## Model

| member | source | states |
|---|---|---|
| PyStr.StartsWith | JARVIS_AI.py:52 | `s.startswith(p)`: `p` is no longer than `s` and is its first `len(p)` characters; `Handlers.IsVideoUrl`, the address test `Handlers.VideoLinksBound` speaks of, is built from it |
| PyStr.Contains | JARVIS_AI.py:74-84 | `p in s` as a left-to-right scan; `PyStr.ContainsIff` proves it holds exactly when `p` occurs at some index |
| PyStr.ContainsIff | JARVIS_AI.py:74 | the `in` scan finds a keyword exactly when it occurs at some index of the query |
| PyStr.MissingCharNotContained | JARVIS_AI.py:74-84 | a query that lacks one of the characters of a keyword does not contain it |
| PyStr.ContainsAfterPrefix | JARVIS_AI.py:74-84 | a prefix none of whose characters can start the keyword does not change whether the keyword occurs |
| PyStr.RemoveAll | JARVIS_AI.py:79 | `s.replace(p, "")` never lengthens the text; `RemoveAllFirst` fixes that the leftmost occurrence goes first and removal resumes after its end, and `RemoveAllUnchangedIff` that a text without the pattern is left alone |
| PyStr.RemoveAllFirst | JARVIS_AI.py:79 | with a non-empty `p` whose leftmost occurrence starts at `i`, `replace(p, "")` keeps `s[:i]` and continues on `s[i + len(p):]`, so an occurrence overlapping the one deleted is not deleted |
| PyStr.RemoveAllUnchangedIff | JARVIS_AI.py:79 | `replace(p, "")` with a non-empty `p` leaves the text unchanged exactly when `p` does not occur in it |
| PyStr.RemoveAllAfterPrefix | JARVIS_AI.py:79 | removal passes over a prefix that cannot start the pattern: `(a + b).replace(p, "") == a + b.replace(p, "")` |
| PyStr.RemoveAllLeading | JARVIS_AI.py:79 | a text that starts with `p` and holds no other `p` loses exactly that leading `p` |
| PyStr.Strip | JARVIS_AI.py:71 | the result is the text without whitespace at either end: whitespace before and after it, and none at its own ends |
| PyStr.StripUnique | JARVIS_AI.py:71 | any cut that leaves whitespace outside and none at the ends is the one `strip()` makes |
| PyStr.StripIdempotent | JARVIS_AI.py:71 | stripping twice is stripping once |
| PyStr.StripPadded | JARVIS_AI.py:71 | whitespace added around a text does not change what `strip()` gives |
| PyStr.StripFixed | JARVIS_AI.py:71 | a text with no whitespace at either end is left as it is |
| PyStr.LowerChar | JARVIS_AI.py:71 | lower-casing never produces an upper-case ASCII letter and maps whitespace to whitespace and nothing else to it |
| PyStr.Lower | JARVIS_AI.py:71 | `s.lower()` letter by letter with `LowerChar`, so no upper-case ASCII letter is left; `LowerIdempotent` and `StripLower` are proved about it |
| PyStr.LowerIdempotent | JARVIS_AI.py:71 | lower-casing twice is lower-casing once |
| PyStr.StripLower | JARVIS_AI.py:27 | `lower().strip()` in `solve_math` and `strip().lower()` in `index` give the same text |
| PyStr.SliceTo | JARVIS_AI.py:19 | `s[:n]` has `min(n, len(s))` elements for `n >= 0` and is always a prefix of `s` |
| PercentEncoding.Utf8Char | JARVIS_AI.py:43 | one to four bytes per character, a single byte exactly for ASCII |
| PercentEncoding.Utf8 | JARVIS_AI.py:43 | `s.encode("utf-8")`, the bytes `quote` escapes; `Utf8RoundTrip` proves decoding them gives the text back and `Utf8Concat` that texts are encoded piece by piece |
| PercentEncoding.Utf8RoundTrip | JARVIS_AI.py:43 | decoding the UTF-8 bytes of a text gives the text back |
| PercentEncoding.QuoteByte | JARVIS_AI.py:43 | a safe byte is written as its own character, never "%"; any other byte as "%" and two upper-case hexadecimal digits whose value is the byte |
| PercentEncoding.QuoteBytes | JARVIS_AI.py:43 | only safe characters, "%" and upper-case hexadecimal digits appear, and every "%" is followed by two upper-case hexadecimal digits |
| PercentEncoding.Quote | JARVIS_AI.py:43 | the quoted text never holds a space, holds only safe characters, "%" and upper-case hexadecimal digits, and every "%" starts an escape of two upper-case hexadecimal digits |
| PercentEncoding.PercentDecodeQuoted | JARVIS_AI.py:43 | reading the "%XX" escapes back gives exactly the bytes that were quoted |
| PercentEncoding.QuoteRoundTrip | JARVIS_AI.py:43 | unquoting the quoted text gives the text back, so the search URL carries the topic intact |
| PercentEncoding.QuoteAppend | JARVIS_AI.py:43 | texts are quoted piece by piece |
| PercentEncoding.QuoteUnchangedIff | JARVIS_AI.py:43 | quoting leaves a text unchanged exactly when all its characters are safe (ASCII letters, digits, `_.-~` and `/`) |
| PercentEncoding.QuoteLength | JARVIS_AI.py:43 | a quoted text is never shorter than the text |
| Handlers.SolveMath | JARVIS_AI.py:24-39 | the reply is never empty |
| Handlers.MathReply | JARVIS_AI.py:28-37 | the reply to a normalised query is never empty; `DifferentiateExpression`, `IntegrateExpression` and `SolveMathFallbackIff` fix which branch gives it |
| Handlers.MathExpression | JARVIS_AI.py:29 | the expression is the query without the keyword, stripped; `ExpressionAfterKeyword` proves that keyword, space and a clean expression give back exactly that expression |
| Handlers.SolveMathFallbackIff | JARVIS_AI.py:27-37 | the fallback reply comes exactly from a query with neither "differentiate" nor "integrate" |
| Handlers.SolveMathNormalized | JARVIS_AI.py:27 | a query already stripped and lower-cased is solved as the text it came from |
| Handlers.ExpressionAfterKeyword | JARVIS_AI.py:29 | from keyword, space and a stripped expression without the keyword, the expression is recovered exactly |
| Handlers.DifferentiateExpression | JARVIS_AI.py:28-31 | "differentiate e" hands sympy exactly `e` and replies "The derivative of e is: r", or "Error: m" when sympy raises |
| Handlers.IntegrateExpression | JARVIS_AI.py:32-35 | "integrate e" hands sympy exactly `e` and replies "The integral of e is: r + C", or "Error: m" |
| Handlers.StrRepr | JARVIS_AI.py:19 | `repr(s)` of one option; `StrReprPlain` proves a plain option is shown between single quotes as it is |
| Handlers.ListRepr | JARVIS_AI.py:19 | `str()` of the list of options, each shown by `StrRepr`; `DisambiguationFirstFive` proves only the first five reach it |
| Handlers.StrReprPlain | JARVIS_AI.py:19 | an option of printable ASCII characters other than quotes and the backslash is shown as its own text between single quotes |
| Handlers.WikiErrorReply | JARVIS_AI.py:18-21 | a disambiguation or a missing page gets a reply; every other error escapes |
| Handlers.WikipediaSummary | JARVIS_AI.py:11-21 | an exception escapes exactly when the search or the summary of the first title fails with an error other than those two; an empty search gives "No relevant Wikipedia pages found." |
| Handlers.WikipediaFirstTitleOnly | JARVIS_AI.py:16-17 | searches that agree on the first title give the same reply |
| Handlers.DisambiguationFirstFive | JARVIS_AI.py:19 | options past the fifth never change the reply |
| Handlers.GoogleLinks | JARVIS_AI.py:42-44 | exactly `num` links, none for a negative `num` |
| Handlers.GoogleLinksCarryQuery | JARVIS_AI.py:43-44 | all links are the same, start with the search URL, hold no space after it, and unquote to the query |
| Handlers.CollectLinks | JARVIS_AI.py:59-62 | the links the loop appends: `CollectAllVideos`, `CollectUpToFailure` and `CollectLength` state what they are |
| Handlers.VideoLinks | JARVIS_AI.py:51-63 | what `get_youtube_links` returns; `VideoLinksBound` bounds it and `YoutubeLinks` is proved to build it |
| Handlers.YoutubeLinks | JARVIS_AI.py:47-63 | the loop builds exactly `VideoLinks`: the address alone, or one watch URL per result and the error entry after them |
| Handlers.CollectAllVideos | JARVIS_AI.py:59-60 | when every result is readable, link `k` is the watch URL of result `k` |
| Handlers.CollectUpToFailure | JARVIS_AI.py:59-62 | when result `f` is the first to fail, the links before it are kept and the error entry comes last |
| Handlers.CollectLength | JARVIS_AI.py:59-62 | never more entries than results |
| Handlers.VideoLinksBound | JARVIS_AI.py:51-63 | at most `num` links for `num >= 1`; an address is returned alone, once stripped |
| Router.Normalize | JARVIS_AI.py:71 | `strip().lower()` of the form text; `NormalizeIdempotent` and `NormalizeIgnoresCaseAndPadding` are proved about it |
| Router.FirstMatch | JARVIS_AI.py:74-91 | the first intent of a table one of whose keywords the query contains, the summary when none is |
| Router.Classify | JARVIS_AI.py:74-91 | the intent of a normalised query by the keyword table; `ClassifyOrder` proves it is the view's `if` chain |
| Router.VideoTopic | JARVIS_AI.py:79 | the YouTube topic; `TopicsDropKeyword` and `TopicAfterKeyword` state what is left of the query |
| Router.SearchTopic | JARVIS_AI.py:85 | the Google topic; `TopicsDropKeyword` and `TopicAfterKeyword` state what is left of the query |
| Router.ClassifyOrder | JARVIS_AI.py:74-91 | the keyword table is the view's `if` chain: math, then YouTube, then Google, then the summary |
| Router.Index | JARVIS_AI.py:66-93 | a GET renders the empty page; a POST renders the reply and links of the one handler the normalised query is routed to, or ends in the exception the summary lets through |
| Router.NormalizeIdempotent | JARVIS_AI.py:71 | normalising is idempotent, and `solve_math`'s own normalisation changes nothing |
| Router.NormalizeIgnoresCaseAndPadding | JARVIS_AI.py:71 | queries that differ in letter case and surrounding whitespace are normalised to one text, so they get one intent and one topic |
| Router.MathRouteNeverFallsBack | JARVIS_AI.py:37 | the fallback reply of `solve_math` never reaches the page |
| Router.RemoveAllShortens | JARVIS_AI.py:79 | a pattern that occurs is removed at least once |
| Router.TopicsDropKeyword | JARVIS_AI.py:79-87 | the topic is shorter than the query by at least the keyword and has no whitespace at either end |
| Router.TopicAfterKeyword | JARVIS_AI.py:79-85 | keyword, space and a clean topic that holds none of the removed texts gives back exactly that topic |
| Router.SiteAbsent | JARVIS_AI.py:79-85 | a text without the keyword holds no "on " + keyword |
| Router.KeywordRequestNormal | JARVIS_AI.py:71 | a lower-case keyword, a space and a clean text are already normal |
| Router.VideoRequest | JARVIS_AI.py:78-80 | "youtube " + topic is a YouTube request for exactly that topic |
| Router.SearchRequest | JARVIS_AI.py:84-86 | "google " + topic is a Google request for exactly that topic |
| Router.DifferentiateRequest | JARVIS_AI.py:74-75 | "differentiate " + expression reaches `solve_math` as typed |
| Router.IntegrateRequest | JARVIS_AI.py:74-75 | "integrate " + expression reaches `solve_math` as typed |
| Scenarios.YoutubeLofiBeats | JARVIS_AI.py:78-81 | "youtube lofi beats": YouTube intent, topic "lofi beats", and five readable results give their five watch URLs in order |
| Scenarios.GoogleRustProgramming | JARVIS_AI.py:84-87 | "google rust programming": Google intent, topic "rust programming" |
| Scenarios.GoogleRustProgrammingLinks | JARVIS_AI.py:42-44 | the topic "rust programming" gives five copies of `https://www.google.com/search?q=rust%20programming` |
| Scenarios.TwoWordLinks | JARVIS_AI.py:43-44 | two words of safe characters around a space give five links with the space as `%20` |
| Scenarios.BlankQuery | JARVIS_AI.py:71-91 | an empty or blank query asks Wikipedia about "" and, with no hits, gets "No relevant Wikipedia pages found." |
| Scenarios.DifferentiateSquare | JARVIS_AI.py:28-31 | "differentiate x**2" gives "The derivative of x**2 is: 2*x" when sympy prints 2*x |
| Scenarios.IntegrateLinear | JARVIS_AI.py:32-35 | "integrate x" gives "The integral of x is: x**2/2 + C" when sympy prints x**2/2 |
| Scenarios.DifferentiateMalformed | JARVIS_AI.py:38-39 | "differentiate ++" replies "Error: " and sympy's message |
| Scenarios.LofiOnYoutube | JARVIS_AI.py:79 | "lofi on youtube" keeps "on" in its topic: once "youtube" is gone, "on youtube" no longer matches |
| Scenarios.ShortLinkAsksWikipedia | JARVIS_AI.py:74-91 | a query that is only a `https://youtu.be/…` link holds no "youtube" and goes to the Wikipedia summary |
| Scenarios.YoutubeShortLink | JARVIS_AI.py:52-53 | "youtube " followed by a `https://youtu.be/…` link is a video request whose topic is the link, and `get_youtube_links` returns that link alone without searching |
| Scenarios.PastedWatchUrl | JARVIS_AI.py:79-80 | a pasted `https://www.youtube.com/watch?v=…` loses "youtube" from its host before `get_youtube_links`, so it is searched for, not returned |

## Left out

- The Flask application, the route decorator, `render_template` and `app.run` (web I/O): `Router.Index` returns the values the template is given.
- `request.form["query"]` on a POST without the field raises in Flask; the model's `Post` always carries the query.
- sympy: `sp.symbols`, `sp.sympify`, `sp.diff` and `sp.integrate` are the functions `derivative` and `integral` of `Services`, giving the printed result or the message of what they raise. What they compute is not modelled.
- The wikipedia client: `search` and `summary` are functions of `Services`, each returning a value or one of the three kinds of error. The network, the ten-sentence cut of the summary and the meaning of the errors are not modelled.
- pytube `Search` and `time.sleep(1)`: the search is a function of `Services` giving the result list or a failure. Each result may fail when it is read, and a failed read ends the loop as the `except` does. Timing is not modelled.
- `lower()` beyond ASCII: only `A`–`Z` are mapped. Other scripts' case mappings and characters whose lower-case form has another length are not modelled.
- Handlers.StrReprPlain: `repr` is modelled for the choice of quote and for the escapes of the backslash, the quote, tab, newline, carriage return and the ASCII control characters. The `\x`, `\u` and `\U` escapes Python writes for non-printable characters outside ASCII are not modelled: such characters are shown as they are.
- PercentEncoding.Unquote: returns `None` where Python's `unquote` would substitute U+FFFD for bytes that are not UTF-8; quoted texts never contain such bytes.
- Lone surrogates: texts are sequences of Unicode scalar values, so Python strings holding unpaired surrogates, which `quote` cannot encode either, are outside the model.

Behaviour of the code a reader may not expect:

- `get_youtube_links` appends its error entry after the links already collected (JARVIS_AI.py:59-62), rather than returning only the error.
- A query that is only a `youtu.be` link holds no "youtube", so the router sends it to Wikipedia (`Scenarios.ShortLinkAsksWikipedia`). Only with the keyword in front, as in "youtube https://youtu.be/…", does the link reach `get_youtube_links`, which returns it alone (`Scenarios.YoutubeShortLink`).
- A pasted `www.youtube.com` URL loses "youtube" before `get_youtube_links` sees it (`Scenarios.PastedWatchUrl`).
