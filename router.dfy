/** The `index` view: the form text is stripped and lower-cased, then sent
    by ordered substring tests to the math handler, the YouTube links, the
    Google links or, when nothing else matches, the Wikipedia summary. */
module Router {
  import opened PyStr
  import opened PercentEncoding
  import opened Handlers

  datatype Intent = MathIntent | VideoIntent | SearchIntent | SummaryIntent

  /** The keywords of each intent, in the order they are tried; a query
      that mentions none of them asks for a summary. */
  const KeywordTable: seq<(Intent, seq<string>)> :=
    [(MathIntent, ["differentiate", "integrate"]), (VideoIntent, ["youtube"]), (SearchIntent, ["google"])]

  predicate MentionsAny(q: string, words: seq<string>) {
    exists w :: w in words && Contains(q, w)
  }

  /** The first intent of `table` one of whose keywords `q` contains. */
  function FirstMatch(q: string, table: seq<(Intent, seq<string>)>): Intent {
    if table == [] then SummaryIntent
    else if MentionsAny(q, table[0].1) then table[0].0
    else FirstMatch(q, table[1..])
  }

  /** The intent of a normalised query: the first match in the table. */
  function Classify(q: string): Intent {
    FirstMatch(q, KeywordTable)
  }

  /** `request.form["query"].strip().lower()` */
  function Normalize(raw: string): string {
    Lower(Strip(raw))
  }

  /** The YouTube topic: "youtube", then "give me links for", then
      "on youtube" are removed one after the other, and the rest stripped. */
  function VideoTopic(q: string): string {
    Strip(RemoveAll(RemoveAll(RemoveAll(q, "youtube"), "give me links for"), "on youtube"))
  }

  /** The Google topic: "google", then "search for", then "on google" are
      removed one after the other, and the rest stripped. */
  function SearchTopic(q: string): string {
    Strip(RemoveAll(RemoveAll(RemoveAll(q, "google"), "search for"), "on google"))
  }

  const VideoReplyPrefix := "Here are top YouTube videos for: "
  const SearchReplyPrefix := "Here are Google search results for: "

  /** The request as the view sees it: a GET, or a POST of the form's
      `query` field. */
  datatype Request = Get | Post(query: string)

  /** The page rendered with `result` and `links`, or the server error an
      exception the view lets through ends in. */
  datatype Response = Page(result: string, links: seq<string>) | ServerError(message: string)

  // ---------------------------------------------------------------------
  // Routing

  /** The table gives exactly the source's chain of tests: math before
      YouTube before Google, and the summary for everything else. */
  lemma ClassifyOrder(q: string)
    ensures Classify(q)
      == if Contains(q, "differentiate") || Contains(q, "integrate") then MathIntent
         else if Contains(q, "youtube") then VideoIntent
         else if Contains(q, "google") then SearchIntent
         else SummaryIntent
  {
    var t := KeywordTable;
    assert MentionsAny(q, t[0].1) <==> Contains(q, "differentiate") || Contains(q, "integrate") by {
      assert t[0].1 == ["differentiate", "integrate"];
      if Contains(q, "differentiate") { assert "differentiate" in t[0].1; }
      if Contains(q, "integrate") { assert "integrate" in t[0].1; }
    }
    assert MentionsAny(q, t[1].1) <==> Contains(q, "youtube") by {
      assert t[1].1 == ["youtube"];
      if Contains(q, "youtube") { assert "youtube" in t[1].1; }
    }
    assert MentionsAny(q, t[2].1) <==> Contains(q, "google") by {
      assert t[2].1 == ["google"];
      if Contains(q, "google") { assert "google" in t[2].1; }
    }
    var t1, t2, t3 := t[1..], t[1..][1..], t[1..][1..][1..];
    assert t1[0] == t[1] && t2[0] == t[2] && t3 == [];
    assert FirstMatch(q, t3) == SummaryIntent;
    assert FirstMatch(q, t2) == if MentionsAny(q, t[2].1) then SearchIntent else SummaryIntent;
    assert FirstMatch(q, t1) == if MentionsAny(q, t[1].1) then VideoIntent else FirstMatch(q, t2);
    assert FirstMatch(q, t) == if MentionsAny(q, t[0].1) then MathIntent else FirstMatch(q, t1);
  }

  /** `index()`: a GET shows the empty page; a POST routes the normalised
      query to one handler and renders its result and links. */
  method Index(request: Request, sv: Services) returns (response: Response)
    ensures request.Get? ==> response == Page("", [])
    ensures request.Post? ==>
      var q := Normalize(request.query);
      match Classify(q)
      case MathIntent => response == Page(SolveMath(q, sv), [])
      case VideoIntent =>
        response == Page(VideoReplyPrefix + VideoTopic(q), VideoLinks(VideoTopic(q), 5, sv.videoSearch))
      case SearchIntent =>
        response == Page(SearchReplyPrefix + SearchTopic(q), GoogleLinks(SearchTopic(q), 5))
      case SummaryIntent =>
        response == match WikipediaSummary(q, sv)
                    case Answer(text) => Page(text, [])
                    case Uncaught(m) => ServerError(m)
  {
    var result := "";
    var links: seq<string> := [];
    if request.Post? {
      var userQuery := Lower(Strip(request.query));
      ClassifyOrder(userQuery);
      if Contains(userQuery, "differentiate") || Contains(userQuery, "integrate") {
        result := SolveMath(userQuery, sv);
      } else if Contains(userQuery, "youtube") {
        var topic := VideoTopic(userQuery);
        links := YoutubeLinks(topic, 5, sv.videoSearch);
        result := VideoReplyPrefix + topic;
      } else if Contains(userQuery, "google") {
        var topic := SearchTopic(userQuery);
        links := GoogleLinks(topic, 5);
        result := SearchReplyPrefix + topic;
      } else {
        match WikipediaSummary(userQuery, sv) {
          case Answer(text) =>
            result := text;
          case Uncaught(m) =>
            return ServerError(m);
        }
      }
    }
    return Page(result, links);
  }

  // ---------------------------------------------------------------------
  // Normalisation

  lemma NormalizeIdempotent(raw: string)
    ensures Normalize(Normalize(raw)) == Normalize(raw)
    ensures Strip(Lower(Normalize(raw))) == Normalize(raw)
  {
    var n := Normalize(raw);
    LowerIdempotent(Strip(raw));
    StripLower(Strip(raw));
    StripIdempotent(raw);
    StripLower(n);
  }

  /** Queries that differ only in the case of their letters and in the
      whitespace around them are the same query once normalised, so they
      get the same intent, the same topics and the same response. */
  lemma NormalizeIgnoresCaseAndPadding(ws1: string, a: string, ws2: string, b: string)
    requires AllSpace(ws1) && AllSpace(ws2) && SameUpToCase(a, b)
    ensures Normalize(ws1 + a + ws2) == Normalize(b)
  {
    StripPadded(ws1, a, ws2);
    assert Lower(a) == Lower(b);
    StripLower(a);
    StripLower(b);
  }

  /** The math handler is only reached with a keyword in the query, so its
      fallback reply never reaches the page. */
  lemma MathRouteNeverFallsBack(raw: string, sv: Services)
    requires Classify(Normalize(raw)) == MathIntent
    ensures SolveMath(Normalize(raw), sv) != MathFallback
  {
    var q := Normalize(raw);
    ClassifyOrder(q);
    NormalizeIdempotent(raw);
    SolveMathFallbackIff(q, sv);
  }

  // ---------------------------------------------------------------------
  // Topics

  /** A keyword that occurs is removed at least once. */
  lemma {:induction false} RemoveAllShortens(s: string, p: string)
    requires p != [] && Contains(s, p)
    ensures |RemoveAll(s, p)| <= |s| - |p|
    decreases |s|
  {
    if !StartsWith(s, p) {
      RemoveAllShortens(s[1..], p);
    }
  }

  /** The topic is shorter than the query by at least the intent's keyword,
      and carries no whitespace at either end. */
  lemma TopicsDropKeyword(q: string)
    ensures Contains(q, "youtube") ==> |VideoTopic(q)| <= |q| - 7
    ensures Contains(q, "google") ==> |SearchTopic(q)| <= |q| - 6
    ensures var t := VideoTopic(q); t == [] || (!IsSpace(t[0]) && !IsSpace(t[|t| - 1]))
    ensures var t := SearchTopic(q); t == [] || (!IsSpace(t[0]) && !IsSpace(t[|t| - 1]))
  {
    if Contains(q, "youtube") { RemoveAllShortens(q, "youtube"); }
    if Contains(q, "google") { RemoveAllShortens(q, "google"); }
  }

  /** After the keyword and one space, a topic that holds none of the
      three removed texts comes out of the removals and the strip as it
      went in. */
  lemma TopicAfterKeyword(kw: string, filler: string, site: string, t: string)
    requires kw != [] && kw[0] != ' ' && filler != [] && filler[0] != ' ' && site != [] && site[0] != ' '
    requires !Contains(t, kw) && !Contains(t, filler) && !Contains(t, site)
    requires t != [] ==> !IsSpace(t[0]) && !IsSpace(t[|t| - 1])
    ensures Strip(RemoveAll(RemoveAll(RemoveAll(kw + " " + t, kw), filler), site)) == t
  {
    KeywordRemoved(kw, t);
    AbsentAfterSpace(filler, t);
    AbsentAfterSpace(site, t);
    StripOneSpace(t);
  }

  /** `TopicAfterKeyword` for the keyword and its space given as one text
      `kwSpace`, the form a query literal spells them in. */
  lemma TopicAfterKeywordSpaced(kw: string, kwSpace: string, filler: string, site: string, t: string)
    requires kwSpace == kw + " "
    requires kw != [] && kw[0] != ' ' && filler != [] && filler[0] != ' ' && site != [] && site[0] != ' '
    requires !Contains(t, kw) && !Contains(t, filler) && !Contains(t, site)
    requires t != [] ==> !IsSpace(t[0]) && !IsSpace(t[|t| - 1])
    ensures Strip(RemoveAll(RemoveAll(RemoveAll(kwSpace + t, kw), filler), site)) == t
  {
    TopicAfterKeyword(kw, filler, site, t);
    KeywordThenSpace(kw, kwSpace, t);
  }

  lemma AbsentAfterSpace(p: string, t: string)
    requires p != [] && p[0] != ' ' && !Contains(t, p)
    ensures RemoveAll(" " + t, p) == " " + t
  {
    RemoveAllAfterPrefix(" ", t, p);
    RemoveAllUnchangedIff(t, p);
  }

  /** A text without the keyword cannot hold "on " and the keyword. */
  lemma SiteAbsent(kw: string, site: string, t: string)
    requires site == "on " + kw && !Contains(t, kw)
    ensures !Contains(t, site)
  {
    if Contains(t, site) {
      assert "on " + kw + [] == site;
      ContainsInner(t, "on ", kw, []);
    }
  }

  /** A keyword, one space and an already clean text form a query that
      normalisation leaves alone. */
  lemma KeywordRequestNormal(kw: string, t: string)
    requires kw != [] && !IsSpace(kw[0]) && Lower(kw + " ") == kw + " "
    requires t != [] && !IsSpace(t[0]) && !IsSpace(t[|t| - 1]) && Lower(t) == t
    ensures Normalize(kw + " " + t) == kw + " " + t
  {
    StripFixed(t);
    KeywordQueryNormal(kw + " ", t);
    StripLower(kw + " " + t);
  }



  /** "youtube" followed by a clean topic that asks for nothing else is a
      YouTube request for exactly that topic. */
  lemma VideoRequest(t: string)
    requires t != [] && !IsSpace(t[0]) && !IsSpace(t[|t| - 1]) && Lower(t) == t
    requires !Contains(t, "youtube") && !Contains(t, "give me links for")
    requires !Contains(t, "differentiate") && !Contains(t, "integrate")
    ensures Classify(Normalize("youtube " + t)) == VideoIntent
    ensures VideoTopic(Normalize("youtube " + t)) == t
  {
    VideoRequestNormal(t);
    VideoRequestRoute(t);
    VideoRequestTopic(t);
  }

  lemma VideoRequestNormal(t: string)
    requires t != [] && !IsSpace(t[0]) && !IsSpace(t[|t| - 1]) && Lower(t) == t
    ensures Normalize("youtube " + t) == "youtube " + t
  {
    KeywordThenSpace("youtube", "youtube ", t);
    LowerCaseKeyword("youtube");
    KeywordRequestNormal("youtube", t);
  }

  lemma VideoRequestRoute(t: string)
    requires !Contains(t, "differentiate") && !Contains(t, "integrate")
    ensures Classify("youtube " + t) == VideoIntent
  {
    KeywordThenSpace("youtube", "youtube ", t);
    VideoRouteJoined(t);
  }

  lemma VideoRequestTopic(t: string)
    requires t != [] && !IsSpace(t[0]) && !IsSpace(t[|t| - 1])
    requires !Contains(t, "youtube") && !Contains(t, "give me links for")
    ensures VideoTopic("youtube " + t) == t
  {
    VideoTopicWords();
    YoutubeSiteAbsent(t);
    TopicAfterKeywordSpaced("youtube", "youtube ", "give me links for", "on youtube", t);
  }

  lemma VideoRouteJoined(t: string)
    requires !Contains(t, "differentiate") && !Contains(t, "integrate")
    ensures Classify("youtube" + " " + t) == VideoIntent
  {
    KeywordMentioned("youtube", " " + t);
    assert "youtube" + " " + t == "youtube " + t;
    ContainsAfterPrefix("youtube ", t, "differentiate");
    ContainsAfterPrefix("youtube ", t, "integrate");
    ClassifyOrder("youtube" + " " + t);
  }

  /** The texts the YouTube topic is cut from meet `TopicAfterKeywordSpaced`'s
      demands on them. */
  lemma VideoTopicWords()
    ensures "youtube " == "youtube" + " "
    ensures "youtube" != [] && "youtube"[0] != ' '
    ensures "give me links for" != [] && "give me links for"[0] != ' '
    ensures "on youtube" != [] && "on youtube"[0] != ' '
  {
  }

  lemma YoutubeSiteAbsent(t: string)
    requires !Contains(t, "youtube")
    ensures !Contains(t, "on youtube")
  {
    SiteAbsent("youtube", "on youtube", t);
  }


  /** "google" followed by a clean topic that asks for nothing else is a
      Google request for exactly that topic. */
  lemma SearchRequest(t: string)
    requires t != [] && !IsSpace(t[0]) && !IsSpace(t[|t| - 1]) && Lower(t) == t
    requires !Contains(t, "google") && !Contains(t, "search for") && !Contains(t, "youtube")
    requires !Contains(t, "differentiate") && !Contains(t, "integrate")
    ensures Classify(Normalize("google " + t)) == SearchIntent
    ensures SearchTopic(Normalize("google " + t)) == t
  {
    SearchRequestNormal(t);
    SearchRequestRoute(t);
    SearchRequestTopic(t);
  }

  lemma SearchRequestNormal(t: string)
    requires t != [] && !IsSpace(t[0]) && !IsSpace(t[|t| - 1]) && Lower(t) == t
    ensures Normalize("google " + t) == "google " + t
  {
    KeywordThenSpace("google", "google ", t);
    LowerCaseKeyword("google");
    KeywordRequestNormal("google", t);
  }

  lemma SearchRequestRoute(t: string)
    requires !Contains(t, "youtube") && !Contains(t, "differentiate") && !Contains(t, "integrate")
    ensures Classify("google " + t) == SearchIntent
  {
    KeywordThenSpace("google", "google ", t);
    SearchRouteJoined(t);
  }

  lemma SearchRequestTopic(t: string)
    requires t != [] && !IsSpace(t[0]) && !IsSpace(t[|t| - 1])
    requires !Contains(t, "google") && !Contains(t, "search for")
    ensures SearchTopic("google " + t) == t
  {
    SearchTopicWords();
    GoogleSiteAbsent(t);
    TopicAfterKeywordSpaced("google", "google ", "search for", "on google", t);
  }

  lemma SearchRouteJoined(t: string)
    requires !Contains(t, "youtube") && !Contains(t, "differentiate") && !Contains(t, "integrate")
    ensures Classify("google" + " " + t) == SearchIntent
  {
    KeywordMentioned("google", " " + t);
    assert "google" + " " + t == "google " + t;
    ContainsAfterPrefix("google ", t, "differentiate");
    ContainsAfterPrefix("google ", t, "integrate");
    ContainsAfterPrefix("google ", t, "youtube");
    ClassifyOrder("google" + " " + t);
  }

  /** The texts the Google topic is cut from meet `TopicAfterKeywordSpaced`'s
      demands on them. */
  lemma SearchTopicWords()
    ensures "google " == "google" + " "
    ensures "google" != [] && "google"[0] != ' '
    ensures "search for" != [] && "search for"[0] != ' '
    ensures "on google" != [] && "on google"[0] != ' '
  {
  }

  lemma GoogleSiteAbsent(t: string)
    requires !Contains(t, "google")
    ensures !Contains(t, "on google")
  {
    SiteAbsent("google", "on google", t);
  }


  // ---------------------------------------------------------------------
  // Math requests

  /** "differentiate" followed by a clean expression reaches the math
      handler with the query as typed. */
  lemma DifferentiateRequest(e: string)
    requires e != [] && !IsSpace(e[0]) && !IsSpace(e[|e| - 1]) && Lower(e) == e
    ensures Normalize("differentiate " + e) == "differentiate " + e
    ensures Classify("differentiate " + e) == MathIntent
  {
    KeywordThenSpace("differentiate", "differentiate ", e);
    LowerCaseKeyword("differentiate");
    KeywordRequestNormal("differentiate", e);
    MathRouteJoined("differentiate", e);
  }

  /** "integrate" followed by a clean expression reaches the math handler
      with the query as typed. */
  lemma IntegrateRequest(e: string)
    requires e != [] && !IsSpace(e[0]) && !IsSpace(e[|e| - 1]) && Lower(e) == e
    ensures Normalize("integrate " + e) == "integrate " + e
    ensures Classify("integrate " + e) == MathIntent
  {
    KeywordThenSpace("integrate", "integrate ", e);
    LowerCaseKeyword("integrate");
    KeywordRequestNormal("integrate", e);
    MathRouteJoined("integrate", e);
  }

  /** A query that starts with a math keyword is a math query, whatever
      else it mentions. */
  lemma MathRouteJoined(kw: string, e: string)
    requires kw == "differentiate" || kw == "integrate"
    ensures Classify(kw + " " + e) == MathIntent
  {
    KeywordMentioned(kw, " " + e);
    assert kw + " " + e == kw + (" " + e);
    ClassifyOrder(kw + " " + e);
  }
}
