/** The four handlers the router dispatches to: `solve_math`,
    `get_wikipedia_summary`, `get_google_links` and `get_youtube_links`.
    The libraries they call (sympy, the wikipedia client, pytube) are the
    fields of `Services`: each is a function from the text handed over to
    what the library gives back or raises. */
module Handlers {
  import opened PyStr
  import opened PercentEncoding

  /** What sympy gives for an expression text: the printed result of
      `sp.diff(sp.sympify(e), x)` or `sp.integrate(sp.sympify(e), x)`, or
      the message of the exception raised on the way. */
  datatype Symbolic = Printed(text: string) | Raised(message: string)

  /** The exceptions of the wikipedia client. */
  datatype WikiError =
    | Disambiguation(options: seq<string>)  // DisambiguationError, with e.options
    | PageMissing                           // PageError
    | OtherError(message: string)           // anything else: not caught

  datatype WikiCall<T> = Returned(value: T) | Failed(error: WikiError)

  /** One entry of `Search(q).results`, or an exception raised while reading it. */
  datatype VideoItem = Video(videoId: string) | ItemFailed(message: string)

  /** `Search(q).results`, or the exception raised by the search itself. */
  datatype VideoSearch = Results(items: seq<VideoItem>) | SearchFailed(message: string)

  datatype Services = Services(
    derivative: string -> Symbolic,
    integral: string -> Symbolic,
    wikiSearch: string -> WikiCall<seq<string>>,   // wikipedia.search(q)
    wikiSummary: string -> WikiCall<string>,       // wikipedia.summary(title, sentences=10)
    videoSearch: string -> VideoSearch)            // pytube Search(q), read after the wait

  // ---------------------------------------------------------------------
  // solve_math

  // Joined from two literals: the verifier reads the characters of a short
  // literal but not those of one this long, and the proofs below need its
  // first character.
  const MathFallback := "I can currently help " + "with differentiation and integration."

  /** The expression text: the query without any occurrence of the keyword,
      stripped. */
  function MathExpression(q: string, keyword: string): string {
    Strip(RemoveAll(q, keyword))
  }

  /** `solve_math(query)`: "differentiate" is looked for before "integrate";
      a failure of sympy becomes "Error: " and its message. */
  function SolveMath(query: string, sv: Services): (reply: string)
    ensures reply != []
  {
    MathReply(Strip(Lower(query)), sv)
  }

  /** The reply of `solve_math` once the query is lower-cased and stripped. */
  function MathReply(q: string, sv: Services): (reply: string)
    ensures reply != []
  {
    if Contains(q, "differentiate") then
      var expr := MathExpression(q, "differentiate");
      match sv.derivative(expr)
      case Printed(r) => "The derivative of " + expr + " is: " + r
      case Raised(e) => "Error: " + e
    else if Contains(q, "integrate") then
      var expr := MathExpression(q, "integrate");
      match sv.integral(expr)
      case Printed(r) => "The integral of " + expr + " is: " + r + " + C"
      case Raised(e) => "Error: " + e
    else MathFallback
  }

  /** The fallback reply comes exactly from a query with neither keyword. */
  lemma SolveMathFallbackIff(query: string, sv: Services)
    ensures var q := Strip(Lower(query));
      SolveMath(query, sv) == MathFallback
      <==> !Contains(q, "differentiate") && !Contains(q, "integrate")
  {
    var q := Strip(Lower(query));
    var reply := SolveMath(query, sv);
    assert MathFallback[0] == 'I';
    if Contains(q, "differentiate") || Contains(q, "integrate") {
      var expr := if Contains(q, "differentiate") then MathExpression(q, "differentiate")
                  else MathExpression(q, "integrate");
      var outcome := if Contains(q, "differentiate") then sv.derivative(expr) else sv.integral(expr);
      match outcome
      case Printed(r) =>
        assert reply == "The derivative of " + expr + " is: " + r
            || reply == "The integral of " + expr + " is: " + r + " + C";
        assert reply[0] == 'T';
      case Raised(m) =>
        assert reply == "Error: " + m;
        assert reply[0] == 'E';
    }
  }

  /** A query that has already been stripped and lower-cased is solved the
      same way as the text it came from. */
  lemma SolveMathNormalized(raw: string, sv: Services)
    ensures SolveMath(Lower(Strip(raw)), sv) == SolveMath(raw, sv)
  {
    NormalizedTwice(raw);
  }

  /** Lower-casing and stripping a second time changes nothing. */
  lemma NormalizedTwice(raw: string)
    ensures Strip(Lower(Lower(Strip(raw)))) == Strip(Lower(raw))
  {
    StripLower(raw);
    LowerIdempotent(Strip(raw));
    StripLower(Lower(Strip(raw)));
    StripIdempotent(Lower(raw));
  }

  /** The expression of `kw + " " + e` is `e` when `e` holds no `kw` and
      no whitespace around it. */
  lemma ExpressionAfterKeyword(kw: string, e: string)
    requires kw != [] && kw[0] != ' '
    requires Strip(e) == e && !Contains(e, kw)
    ensures MathExpression(kw + " " + e, kw) == e
  {
    KeywordRemoved(kw, e);
    StrippedEnds(e);
    StripOneSpace(e);
  }

  /** For "differentiate e", sympy is handed exactly `e` and the reply names
      it: the keyword and the separating space are all that is cut off. */
  lemma DifferentiateExpression(e: string, sv: Services)
    requires e != [] && Strip(e) == e && Lower(e) == e && !Contains(e, "differentiate")
    ensures SolveMath("differentiate " + e, sv)
      == match sv.derivative(e)
         case Printed(r) => "The derivative of " + e + " is: " + r
         case Raised(m) => "Error: " + m
  {
    DifferentiateQuery(e);
    SolveMathDerivative("differentiate " + e, e, sv);
  }

  /** For "integrate e", sympy is handed exactly `e`, provided `e` does not
      ask for a derivative, which would be looked for first. */
  lemma IntegrateExpression(e: string, sv: Services)
    requires e != [] && Strip(e) == e && Lower(e) == e
    requires !Contains(e, "integrate") && !Contains(e, "differentiate")
    ensures SolveMath("integrate " + e, sv)
      == match sv.integral(e)
         case Printed(r) => "The integral of " + e + " is: " + r + " + C"
         case Raised(m) => "Error: " + m
  {
    IntegrateQuery(e);
    NoDerivativeAfterIntegrate(e);
    SolveMathIntegral("integrate " + e, e, sv);
  }

  lemma DifferentiateQuery(e: string)
    requires e != [] && Strip(e) == e && Lower(e) == e && !Contains(e, "differentiate")
    ensures var q := "differentiate " + e;
      Strip(Lower(q)) == q && Contains(q, "differentiate") && MathExpression(q, "differentiate") == e
  {
    assert "differentiate " + e == "differentiate" + " " + e;
    KeywordQueryLiteral("differentiate", e);
  }
  lemma IntegrateQuery(e: string)
    requires e != [] && Strip(e) == e && Lower(e) == e && !Contains(e, "integrate")
    ensures var q := "integrate " + e;
      Strip(Lower(q)) == q && Contains(q, "integrate") && MathExpression(q, "integrate") == e
  {
    assert "integrate " + e == "integrate" + " " + e;
    KeywordQueryLiteral("integrate", e);
  }

  /** `KeywordQuery` for a keyword spelled out in lower-case letters. */
  lemma KeywordQueryLiteral(kw: string, e: string)
    requires kw != [] && forall k :: 0 <= k < |kw| ==> 'a' <= kw[k] <= 'z'
    requires e != [] && Strip(e) == e && Lower(e) == e && !Contains(e, kw)
    ensures var q := kw + " " + e;
      Strip(Lower(q)) == q && Contains(q, kw) && MathExpression(q, kw) == e
  {
    LowerCaseKeyword(kw);
    KeywordQuery(kw, e);
  }

  /** "integrate " has no 'd', so no "differentiate" can start inside it. */
  lemma NoDerivativeAfterIntegrate(e: string)
    requires !Contains(e, "differentiate")
    ensures !Contains("integrate " + e, "differentiate")
  {
    ContainsAfterPrefix("integrate ", e, "differentiate");
  }

  lemma SolveMathDerivative(query: string, expr: string, sv: Services)
    requires Contains(Strip(Lower(query)), "differentiate")
    requires MathExpression(Strip(Lower(query)), "differentiate") == expr
    ensures SolveMath(query, sv) == match sv.derivative(expr)
        case Printed(r) => "The derivative of " + expr + " is: " + r
        case Raised(m) => "Error: " + m
  {
  }

  lemma SolveMathIntegral(query: string, expr: string, sv: Services)
    requires !Contains(Strip(Lower(query)), "differentiate")
    requires Contains(Strip(Lower(query)), "integrate")
    requires MathExpression(Strip(Lower(query)), "integrate") == expr
    ensures SolveMath(query, sv) == match sv.integral(expr)
        case Printed(r) => "The integral of " + expr + " is: " + r + " + C"
        case Raised(m) => "Error: " + m
  {
  }

  /** `kw + " " + e` is already normal, holds the keyword, and its
      expression is `e`. */
  lemma KeywordQuery(kw: string, e: string)
    requires kw != [] && 'a' <= kw[0] <= 'z' && Lower(kw + " ") == kw + " "
    requires e != [] && Strip(e) == e && Lower(e) == e && !Contains(e, kw)
    ensures var q := kw + " " + e;
      Strip(Lower(q)) == q && Contains(q, kw) && MathExpression(q, kw) == e
  {
    KeywordFirstChar(kw);
    KeywordQueryNormal(kw + " ", e);
    KeywordStarts(kw, e);
    ExpressionAfterKeyword(kw, e);
  }

  lemma KeywordFirstChar(kw: string)
    requires kw != [] && 'a' <= kw[0] <= 'z'
    ensures !IsSpace((kw + " ")[0])
  {
    assert (kw + " ")[0] == kw[0];
  }

  lemma KeywordStarts(kw: string, e: string)
    ensures Contains(kw + " " + e, kw)
  {
    assert kw + " " + e == kw + (" " + e);
    KeywordMentioned(kw, " " + e);
  }

  /** A lower-case keyword followed by a stripped, lower-case expression is
      already normal. */
  lemma KeywordQueryNormal(kw: string, e: string)
    requires kw != [] && !IsSpace(kw[0]) && Lower(kw) == kw
    requires e != [] && Strip(e) == e && Lower(e) == e
    ensures Strip(Lower(kw + e)) == kw + e
  {
    LowerConcat(kw, e);
    StrippedEnds(e);
    JoinedEnds(kw, e);
    StripFixed(kw + e);
  }

  lemma JoinedEnds(a: string, b: string)
    requires a != [] && !IsSpace(a[0]) && b != [] && !IsSpace(b[|b| - 1])
    ensures !IsSpace((a + b)[0]) && !IsSpace((a + b)[|a + b| - 1])
  {
  }

  // ---------------------------------------------------------------------
  // get_wikipedia_summary

  const NoPagesReply := "No relevant Wikipedia pages found."
  const TooBroadPrefix := "Your query is too broad. Try one of these: "
  const NothingFoundReply := "Sorry, I couldn't find anything on that topic."

  /** The handler's reply, or an exception it lets through. */
  datatype Reply = Answer(text: string) | Uncaught(message: string)

  /** `repr()` of one character inside a string literal quoted by `quote`. */
  function ReprChar(c: char, quote: char): string {
    if c == quote || c == '\\' then ['\\', c]
    else if c == '\t' then "\\t"
    else if c == '\n' then "\\n"
    else if c == '\r' then "\\r"
    else if c < ' ' || c == '\U{7F}' then
      ['\\', 'x', "0123456789abcdef"[c as int / 16], "0123456789abcdef"[c as int % 16]]
    else [c]
  }

  function ReprBody(s: string, quote: char): string {
    if s == [] then [] else ReprChar(s[0], quote) + ReprBody(s[1..], quote)
  }

  /** `repr(s)`: single quotes unless the text has a single quote and no
      double quote. */
  function StrRepr(s: string): string {
    var quote := if '\'' in s && '"' !in s then '"' else '\'';
    [quote] + ReprBody(s, quote) + [quote]
  }

  function JoinReprs(xs: seq<string>): string {
    if xs == [] then []
    else if |xs| == 1 then StrRepr(xs[0])
    else StrRepr(xs[0]) + ", " + JoinReprs(xs[1..])
  }

  /** `str()` of a list of strings. */
  function ListRepr(xs: seq<string>): string {
    "[" + JoinReprs(xs) + "]"
  }

  /** Printable ASCII other than the quote and the backslash: `repr` shows
      it as it is. */
  predicate IsPlainChar(c: char) {
    ' ' <= c <= '~' && c != '\'' && c != '"' && c != '\\'
  }

  lemma {:induction false} ReprBodyPlain(s: string, quote: char)
    requires forall k :: 0 <= k < |s| ==> IsPlainChar(s[k])
    requires !IsPlainChar(quote)
    ensures ReprBody(s, quote) == s
    decreases |s|
  {
    if s != [] {
      ReprBodyPlain(s[1..], quote);
      assert [s[0]] + s[1..] == s;
    }
  }

  /** A title of plain characters is listed between single quotes. */
  lemma StrReprPlain(s: string)
    requires forall k :: 0 <= k < |s| ==> IsPlainChar(s[k])
    ensures StrRepr(s) == "'" + s + "'"
  {
    assert forall k :: 0 <= k < |s| ==> s[k] != '\'';
    assert '\'' !in s;
    ReprBodyPlain(s, '\'');
  }

  /** The reply to an exception of the wikipedia client: a disambiguation
      lists its first five options, a missing page gets a fixed reply,
      anything else goes through. */
  function WikiErrorReply(e: WikiError): (r: Reply)
    ensures r.Uncaught? <==> e.OtherError?
  {
    match e
    case Disambiguation(options) => Answer(TooBroadPrefix + ListRepr(SliceTo(options, 5)))
    case PageMissing => Answer(NothingFoundReply)
    case OtherError(m) => Uncaught(m)
  }

  /** `get_wikipedia_summary(query)`: the summary of the first search hit.
      Only an error other than a disambiguation or a missing page, raised by
      the search or by the summary of the first title, escapes. */
  function WikipediaSummary(query: string, sv: Services): (r: Reply)
    ensures r.Uncaught? <==>
      match sv.wikiSearch(query)
      case Failed(e) => e.OtherError?
      case Returned(titles) =>
        titles != [] && sv.wikiSummary(titles[0]).Failed? && sv.wikiSummary(titles[0]).error.OtherError?
    ensures sv.wikiSearch(query) == Returned([]) ==> r == Answer(NoPagesReply)
  {
    match sv.wikiSearch(query)
    case Failed(e) => WikiErrorReply(e)
    case Returned(titles) =>
      if titles == [] then Answer(NoPagesReply)
      else match sv.wikiSummary(titles[0])
        case Returned(text) => Answer(text)
        case Failed(e) => WikiErrorReply(e)
  }

  /** Only the first title found matters: two searches that agree on it (or
      both find nothing) give the same reply. */
  lemma WikipediaFirstTitleOnly(query: string, sv: Services, other: seq<string>)
    requires sv.wikiSearch(query).Returned?
    requires var titles := sv.wikiSearch(query).value;
      |titles| == 0 <==> |other| == 0
    requires var titles := sv.wikiSearch(query).value;
      titles != [] ==> other[0] == titles[0]
    ensures WikipediaSummary(query, sv)
      == WikipediaSummary(query, sv.(wikiSearch := (q: string) => if q == query then Returned(other) else sv.wikiSearch(q)))
  {
  }

  /** Only the first five options of a disambiguation are shown. */
  lemma DisambiguationFirstFive(options: seq<string>, more: seq<string>)
    requires |options| >= 5
    ensures WikiErrorReply(Disambiguation(options + more)) == WikiErrorReply(Disambiguation(options))
  {
    assert SliceTo(options + more, 5) == SliceTo(options, 5);
  }

  // ---------------------------------------------------------------------
  // get_google_links

  const GoogleSearchUrl := "https://www.google.com/search?q="

  /** `get_google_links(query, num)`: `num` copies (none for a negative
      `num`, as `range` gives) of one search URL. */
  function GoogleLinks(query: string, num: int): (links: seq<string>)
    ensures |links| == if num < 0 then 0 else num
  {
    seq(if num < 0 then 0 else num, _ => GoogleSearchUrl + Quote(query))
  }

  /** Every link is the search URL followed by a text with no space that
      unquotes to the query, so all the links are one and the same. */
  lemma GoogleLinksCarryQuery(query: string, num: int, i: int, j: int)
    requires 0 <= i < |GoogleLinks(query, num)| && 0 <= j < |GoogleLinks(query, num)|
    ensures var link := GoogleLinks(query, num)[i];
      link == GoogleLinks(query, num)[j]
      && StartsWith(link, GoogleSearchUrl)
      && Unquote(link[|GoogleSearchUrl|..]) == Some(query)
      && forall k :: |GoogleSearchUrl| <= k < |link| ==> link[k] != ' '
  {
    var link := GoogleLinks(query, num)[i];
    assert link == GoogleSearchUrl + Quote(query);
    assert link[|GoogleSearchUrl|..] == Quote(query);
    QuoteRoundTrip(query);
    forall k | |GoogleSearchUrl| <= k < |link| ensures link[k] != ' ' {
      assert link[k] == Quote(query)[k - |GoogleSearchUrl|];
    }
  }

  // ---------------------------------------------------------------------
  // get_youtube_links

  const WatchUrl := "https://www.youtube.com/watch?v="
  const VideoErrorPrefix := "Error fetching YouTube links: "

  /** A text that already is a YouTube address. */
  predicate IsVideoUrl(q: string) {
    StartsWith(q, "https://www.youtube.com") || StartsWith(q, "https://youtu.be")
  }

  /** The links the loop appends for `items`: one watch URL per video, up to
      the first item that fails, which gives the error entry and ends the
      list. */
  function CollectLinks(items: seq<VideoItem>): seq<string> {
    if items == [] then []
    else match items[0]
      case Video(id) => [WatchUrl + id] + CollectLinks(items[1..])
      case ItemFailed(e) => [VideoErrorPrefix + e]
  }

  /** What `get_youtube_links(query, num)` returns. */
  function VideoLinks(query: string, num: int, search: string -> VideoSearch): seq<string> {
    var q := Strip(query);
    if IsVideoUrl(q) then [q]
    else match search(q)
      case SearchFailed(e) => [VideoErrorPrefix + e]
      case Results(items) => CollectLinks(SliceTo(items, num))
  }

  /** `get_youtube_links(query, num)`: the stripped query itself when it is a
      YouTube address; otherwise the watch URLs of the first `num` search
      results, appended one at a time, with the error entry appended where
      the search fails. */
  method YoutubeLinks(query: string, num: int, search: string -> VideoSearch)
    returns (links: seq<string>)
    ensures links == VideoLinks(query, num, search)
  {
    var q := Strip(query);
    if IsVideoUrl(q) {
      return [q];
    }
    links := [];
    match search(q) {
      case SearchFailed(e) =>
        links := links + [VideoErrorPrefix + e];
      case Results(items) =>
        var results := SliceTo(items, num);
        var i := 0;
        assert results[0..] == results;
        while i < |results|
          invariant 0 <= i <= |results|
          invariant links + CollectLinks(results[i..]) == CollectLinks(results)
        {
          match results[i] {
            case Video(id) =>
              assert results[i..][1..] == results[i + 1..];
              assert CollectLinks(results[i..]) == [WatchUrl + id] + CollectLinks(results[i + 1..]);
              links := links + [WatchUrl + id];
            case ItemFailed(e) =>
              assert CollectLinks(results[i..]) == [VideoErrorPrefix + e];
              links := links + [VideoErrorPrefix + e];
              break;
          }
          i := i + 1;
        }
    }
  }

  /** When every item is read, each gives the watch URL of its video, in
      search order. */
  lemma {:induction false} CollectAllVideos(items: seq<VideoItem>)
    requires forall k :: 0 <= k < |items| ==> items[k].Video?
    ensures |CollectLinks(items)| == |items|
    ensures forall k :: 0 <= k < |items| ==> CollectLinks(items)[k] == WatchUrl + items[k].videoId
    decreases |items|
  {
    if items != [] {
      CollectAllVideos(items[1..]);
    }
  }

  /** When item `f` is the first that fails, the links of the items before it
      are kept and the error entry comes last. */
  lemma {:induction false} CollectUpToFailure(items: seq<VideoItem>, f: nat)
    requires f < |items| && items[f].ItemFailed?
    requires forall k :: 0 <= k < f ==> items[k].Video?
    ensures |CollectLinks(items)| == f + 1
    ensures forall k :: 0 <= k < f ==> CollectLinks(items)[k] == WatchUrl + items[k].videoId
    ensures CollectLinks(items)[f] == VideoErrorPrefix + items[f].message
    decreases f
  {
    if f > 0 {
      CollectUpToFailure(items[1..], f - 1);
    }
  }

  /** No more entries than items. */
  lemma {:induction false} CollectLength(items: seq<VideoItem>)
    ensures |CollectLinks(items)| <= |items|
    decreases |items|
  {
    if items != [] {
      CollectLength(items[1..]);
    }
  }

  /** For a positive `num` there are never more than `num` links; an address
      is returned alone and as it is once stripped. */
  lemma VideoLinksBound(query: string, num: int, search: string -> VideoSearch)
    requires num >= 1
    ensures |VideoLinks(query, num, search)| <= num
    ensures IsVideoUrl(Strip(query)) ==> VideoLinks(query, num, search) == [Strip(query)]
  {
    var q := Strip(query);
    if !IsVideoUrl(q) && search(q).Results? {
      CollectLength(SliceTo(search(q).items, num));
    }
  }
}
