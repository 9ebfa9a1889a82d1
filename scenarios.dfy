/** Concrete queries worked through the model. Each fact about a literal
    text is a lemma of its own; each scenario instantiates the general
    lemmas of the router and the handlers with those facts. */
module Scenarios {
  import opened PyStr
  import opened PercentEncoding
  import opened Handlers
  import opened Router

  /** A text with no whitespace at either end and no upper-case letter. */
  predicate Clean(t: string) {
    t != [] && !IsSpace(t[0]) && !IsSpace(t[|t| - 1])
    && forall k :: 0 <= k < |t| ==> !('A' <= t[k] <= 'Z')
  }

  /** A clean text is its own lower-case form and its own stripped form. */
  lemma CleanFixed(t: string)
    requires Clean(t)
    ensures Lower(t) == t && Strip(t) == t
  {
    StripFixed(t);
    assert forall k :: 0 <= k < |t| ==> Lower(t)[k] == t[k];
  }

  /** Two clean texts joined are already normal. */
  lemma CleanJoinNormal(a: string, t: string)
    requires Clean(a) && Clean(t)
    ensures Normalize(a + t) == a + t
  {
    CleanFixed(a);
    CleanFixed(t);
    KeywordQueryNormal(a, t);
    StripLower(a + t);
  }

  /** Two clean texts joined make a clean text. */
  lemma CleanConcat(a: string, t: string)
    requires Clean(a) && Clean(t)
    ensures Clean(a + t)
  {
    var s := a + t;
    assert s[0] == a[0] && s[|s| - 1] == t[|t| - 1];
    forall k | 0 <= k < |s| ensures !('A' <= s[k] <= 'Z') {
      if k < |a| { assert s[k] == a[k]; } else { assert s[k] == t[k - |a|]; }
    }
  }

  /** A text lacking one of the characters of `p` has nothing to remove. */
  lemma RemoveAbsent(s: string, p: string, j: int)
    requires 0 <= j < |p| && p[j] !in s
    ensures RemoveAll(s, p) == s
  {
    MissingCharNotContained(s, p, j);
    RemoveAllUnchangedIff(s, p);
  }

  /** A topic that is no address is searched for, and when the first `num`
      results are videos the links are their watch URLs in search order. */
  lemma SearchedVideos(t: string, num: nat, search: string -> VideoSearch)
    requires Strip(t) == t && !IsVideoUrl(t)
    requires search(t).Results? && num <= |search(t).items|
    requires forall k :: 0 <= k < num ==> search(t).items[k].Video?
    ensures |VideoLinks(t, num, search)| == num
    ensures forall k :: 0 <= k < num ==> VideoLinks(t, num, search)[k] == WatchUrl + search(t).items[k].videoId
  {
    var items := search(t).items;
    assert SliceTo(items, num) == items[..num];
    CollectAllVideos(items[..num]);
  }

  // ---------------------------------------------------------------------
  // "youtube lofi beats": the topic is "lofi beats", and five readable
  // search results give five watch URLs in search order.

  lemma BeatsClean()
    ensures Clean("lofi beats") && Lower("lofi beats") == "lofi beats" && Strip("lofi beats") == "lofi beats"
  {
    CleanFixed("lofi beats");
  }

  lemma BeatsNoYoutube()
    ensures !Contains("lofi beats", "youtube")
  {
    MissingCharNotContained("lofi beats", "youtube", 0);
  }

  lemma BeatsNoFiller()
    ensures !Contains("lofi beats", "give me links for")
  {
    MissingCharNotContained("lofi beats", "give me links for", 0);
  }

  lemma BeatsNoDerivative()
    ensures !Contains("lofi beats", "differentiate")
  {
    MissingCharNotContained("lofi beats", "differentiate", 0);
  }

  lemma BeatsNoIntegral()
    ensures !Contains("lofi beats", "integrate")
  {
    MissingCharNotContained("lofi beats", "integrate", 1);
  }

  lemma BeatsNotAddress()
    ensures !IsVideoUrl("lofi beats")
  {
    assert "lofi beats"[0] == 'l';
  }

  lemma BeatsQuery()
    ensures "youtube " + "lofi beats" == "youtube lofi beats"
  {
  }

  lemma YoutubeLofiBeats(search: string -> VideoSearch)
    requires search("lofi beats").Results? && |search("lofi beats").items| >= 5
    requires forall k :: 0 <= k < 5 ==> search("lofi beats").items[k].Video?
    ensures Classify(Normalize("youtube lofi beats")) == VideoIntent
    ensures VideoTopic(Normalize("youtube lofi beats")) == "lofi beats"
    ensures |VideoLinks("lofi beats", 5, search)| == 5
    ensures forall k :: 0 <= k < 5 ==>
      VideoLinks("lofi beats", 5, search)[k] == WatchUrl + search("lofi beats").items[k].videoId
  {
    BeatsClean();
    BeatsNoYoutube();
    BeatsNoFiller();
    BeatsNoDerivative();
    BeatsNoIntegral();
    VideoRequest("lofi beats");
    BeatsQuery();
    BeatsNotAddress();
    SearchedVideos("lofi beats", 5, search);
  }

  // ---------------------------------------------------------------------
  // "google rust programming": five copies of one search URL, the space
  // written as %20.

  lemma RustClean()
    ensures Clean("rust programming") && Lower("rust programming") == "rust programming"
  {
    CleanFixed("rust programming");
  }

  lemma RustNoGoogle()
    ensures !Contains("rust programming", "google")
  {
    MissingCharNotContained("rust programming", "google", 4);
  }

  lemma RustNoFiller()
    ensures !Contains("rust programming", "search for")
  {
    MissingCharNotContained("rust programming", "search for", 1);
  }

  lemma RustNoYoutube()
    ensures !Contains("rust programming", "youtube")
  {
    MissingCharNotContained("rust programming", "youtube", 0);
  }

  lemma RustNoDerivative()
    ensures !Contains("rust programming", "differentiate")
  {
    MissingCharNotContained("rust programming", "differentiate", 0);
  }

  lemma RustNoIntegral()
    ensures !Contains("rust programming", "integrate")
  {
    MissingCharNotContained("rust programming", "integrate", 3);
  }

  lemma RustQuery()
    ensures "google " + "rust programming" == "google rust programming"
  {
  }

  lemma SpaceQuoted()
    ensures Quote(" ") == "%20"
  {
    assert Utf8(" ") == [0x20];
    assert QuoteBytes([0x20]) == QuoteByte(0x20) + QuoteBytes([]);
  }

  /** Two words of safe characters around one space: only the space is
      escaped. */
  lemma TwoWordsQuoted(a: string, b: string)
    requires forall k :: 0 <= k < |a| ==> IsSafeChar(a[k])
    requires forall k :: 0 <= k < |b| ==> IsSafeChar(b[k])
    ensures Quote(a + " " + b) == a + "%20" + b
  {
    QuoteAppend(a + " ", b);
    QuoteAppend(a, " ");
    QuoteUnchangedIff(a);
    QuoteUnchangedIff(b);
    SpaceQuoted();
  }

  lemma RustWordsSafe()
    ensures forall k :: 0 <= k < |"rust"| ==> IsSafeChar("rust"[k])
    ensures forall k :: 0 <= k < |"programming"| ==> IsSafeChar("programming"[k])
  {
  }


  /** Two words of safe characters around one space give five copies of
      the search URL with the space escaped. */
  lemma TwoWordLinks(a: string, b: string)
    requires forall k :: 0 <= k < |a| ==> IsSafeChar(a[k])
    requires forall k :: 0 <= k < |b| ==> IsSafeChar(b[k])
    ensures GoogleLinks(a + " " + b, 5) == seq(5, _ => GoogleSearchUrl + a + "%20" + b)
  {
    TwoWordsQuoted(a, b);
    var link := GoogleSearchUrl + a + "%20" + b;
    assert GoogleSearchUrl + Quote(a + " " + b) == link;
    assert forall k :: 0 <= k < 5 ==> GoogleLinks(a + " " + b, 5)[k] == link;
  }

  /** The links for the topic "rust programming", written as its two words
      around the space. */
  lemma GoogleRustProgrammingLinks()
    ensures GoogleLinks("rust" + " " + "programming", 5)
      == seq(5, _ => GoogleSearchUrl + "rust" + "%20" + "programming")
  {
    RustWordsSafe();
    TwoWordLinks("rust", "programming");
  }

  lemma GoogleRustProgramming()
    ensures Classify(Normalize("google rust programming")) == SearchIntent
    ensures SearchTopic(Normalize("google rust programming")) == "rust programming"
  {
    RustClean();
    RustNoGoogle();
    RustNoFiller();
    RustNoYoutube();
    RustNoDerivative();
    RustNoIntegral();
    SearchRequest("rust programming");
    RustQuery();
  }

  // ---------------------------------------------------------------------
  // An empty or blank query asks Wikipedia about the empty text.

  lemma BlankQuery(ws: string, sv: Services)
    requires AllSpace(ws)
    requires sv.wikiSearch("") == Returned([])
    ensures Normalize(ws) == []
    ensures Classify(Normalize(ws)) == SummaryIntent
    ensures WikipediaSummary(Normalize(ws), sv) == Answer(NoPagesReply)
  {
    assert ws == ws + [] + [];
    StripPadded(ws, [], []);
    assert Strip([]) == [];
    ClassifyOrder([]);
  }

  // ---------------------------------------------------------------------
  // Math queries: the keyword, one space and an operand that sympy is
  // handed as it was typed.

  lemma SquareOperand()
    ensures Clean("x**2") && Lower("x**2") == "x**2" && Strip("x**2") == "x**2"
  {
    CleanFixed("x**2");
  }

  lemma SquareNoDerivative()
    ensures !Contains("x**2", "differentiate")
  {
    MissingCharNotContained("x**2", "differentiate", 0);
  }

  lemma SquareQuery()
    ensures "differentiate " + "x**2" == "differentiate x**2"
    ensures "The derivative of " + "x**2" + " is: " + "2*x" == "The derivative of x**2 is: 2*x"
  {
  }

  lemma DifferentiateSquare(sv: Services)
    requires sv.derivative("x**2") == Printed("2*x")
    ensures Classify(Normalize("differentiate x**2")) == MathIntent
    ensures SolveMath(Normalize("differentiate x**2"), sv) == "The derivative of x**2 is: 2*x"
  {
    SquareOperand();
    SquareNoDerivative();
    DifferentiateRequest("x**2");
    DifferentiateExpression("x**2", sv);
    SquareQuery();
  }

  lemma LinearOperand()
    ensures Clean("x") && Lower("x") == "x" && Strip("x") == "x"
  {
    CleanFixed("x");
  }

  lemma LinearNoDerivative()
    ensures !Contains("x", "differentiate")
  {
    MissingCharNotContained("x", "differentiate", 0);
  }

  lemma LinearNoIntegral()
    ensures !Contains("x", "integrate")
  {
    MissingCharNotContained("x", "integrate", 0);
  }

  lemma LinearQuery()
    ensures "integrate " + "x" == "integrate x"
    ensures "The integral of " + "x" + " is: " + "x**2/2" + " + C" == "The integral of x is: x**2/2 + C"
  {
  }

  lemma IntegrateLinear(sv: Services)
    requires sv.integral("x") == Printed("x**2/2")
    ensures Classify(Normalize("integrate x")) == MathIntent
    ensures SolveMath(Normalize("integrate x"), sv) == "The integral of x is: x**2/2 + C"
  {
    LinearOperand();
    LinearNoDerivative();
    LinearNoIntegral();
    IntegrateRequest("x");
    IntegrateExpression("x", sv);
    LinearQuery();
  }

  lemma MalformedOperand()
    ensures Clean("++") && Lower("++") == "++" && Strip("++") == "++"
  {
    CleanFixed("++");
  }

  lemma MalformedNoDerivative()
    ensures !Contains("++", "differentiate")
  {
    MissingCharNotContained("++", "differentiate", 0);
  }

  lemma MalformedQuery()
    ensures "differentiate " + "++" == "differentiate ++"
  {
  }

  /** A malformed expression gives the error text as the reply. */
  lemma DifferentiateMalformed(sv: Services)
    requires sv.derivative("++").Raised?
    ensures Classify(Normalize("differentiate ++")) == MathIntent
    ensures SolveMath(Normalize("differentiate ++"), sv) == "Error: " + sv.derivative("++").message
  {
    MalformedOperand();
    MalformedNoDerivative();
    DifferentiateRequest("++");
    DifferentiateExpression("++", sv);
    MalformedQuery();
  }

  // ---------------------------------------------------------------------
  // "lofi on youtube": replacement is sequential, so once "youtube" is gone
  // "on youtube" no longer matches and the topic keeps "on".

  lemma LofiNormal()
    ensures Normalize("lofi on youtube") == "lofi on youtube"
  {
    assert "l" + "ofi on youtube" == "lofi on youtube";
    CleanJoinNormal("l", "ofi on youtube");
  }

  lemma LofiMentionsYoutube()
    ensures Contains("lofi on youtube", "youtube")
  {
    assert "lofi on " + "youtube" + "" == "lofi on youtube";
    ContainsMiddle("lofi on ", "youtube", "");
  }

  lemma LofiNoDerivative()
    ensures !Contains("lofi on youtube", "differentiate")
  {
    MissingCharNotContained("lofi on youtube", "differentiate", 0);
  }

  lemma LofiNoIntegral()
    ensures !Contains("lofi on youtube", "integrate")
  {
    MissingCharNotContained("lofi on youtube", "integrate", 4);
  }

  lemma LofiDropKeyword()
    ensures RemoveAll("lofi on youtube", "youtube") == "lofi on "
  {
    assert "lofi on " + "youtube" == "lofi on youtube";
    RemoveAllAfterPrefix("lofi on ", "youtube", "youtube");
    RemoveAllLeading("youtube", []);
    assert "youtube" + [] == "youtube";
    assert "lofi on " + [] == "lofi on ";
  }

  lemma LofiNoFiller()
    ensures RemoveAll("lofi on ", "give me links for") == "lofi on "
  {
    RemoveAbsent("lofi on ", "give me links for", 0);
  }

  lemma LofiNoSite()
    ensures RemoveAll("lofi on ", "on youtube") == "lofi on "
  {
    RemoveAbsent("lofi on ", "on youtube", 3);
  }

  lemma LofiStrip()
    ensures Strip("lofi on ") == "lofi on"
  {
    assert "lofi on" + " " == "lofi on ";
    TrailingSpaceStripped("lofi on");
  }

  lemma TrailingSpaceStripped(t: string)
    requires t != [] && !IsSpace(t[0]) && !IsSpace(t[|t| - 1])
    ensures Strip(t + " ") == t
  {
    assert [] + t + " " == t + " ";
    StripPadded([], t, " ");
    StripFixed(t);
  }

  lemma LofiOnYoutube()
    ensures Classify(Normalize("lofi on youtube")) == VideoIntent
    ensures VideoTopic(Normalize("lofi on youtube")) == "lofi on"
  {
    LofiNormal();
    LofiMentionsYoutube();
    LofiNoDerivative();
    LofiNoIntegral();
    ClassifyOrder("lofi on youtube");
    LofiDropKeyword();
    LofiNoFiller();
    LofiNoSite();
    LofiStrip();
  }

  // ---------------------------------------------------------------------
  // A short youtu.be link holds no "youtube", so it is not a YouTube
  // request: it is looked up on Wikipedia.

  const ShortLinkHost := "https://youtu.be/"

  lemma ShortLinkHostClean()
    ensures Clean(ShortLinkHost)
  {
  }

  lemma ShortLinkJoined(id: string)
    ensures ShortLinkHost + id == "https://" + ("youtu.be/" + id)
    ensures ("youtu.be/" + id)[1..] == "outu.be/" + id
  {
  }

  lemma ShortLinkTailNoYoutube(id: string)
    requires !Contains(id, "youtube")
    ensures !Contains("outu.be/" + id, "youtube")
  {
    ContainsAfterPrefix("outu.be/", id, "youtube");
  }

  /** "youtu." parts from "youtube" at its sixth character. */
  lemma ShortLinkFalseStart(id: string)
    ensures !StartsWith("youtu.be/" + id, "youtube")
  {
    var s := "youtu.be/" + id;
    assert s[..7][5] == '.';
  }

  lemma ShortLinkPathNoYoutube(id: string)
    requires !Contains(id, "youtube")
    ensures !Contains("youtu.be/" + id, "youtube")
  {
    ShortLinkJoined(id);
    ShortLinkTailNoYoutube(id);
    ShortLinkFalseStart(id);
  }

  lemma ShortLinkNoYoutube(id: string)
    requires !Contains(id, "youtube")
    ensures !Contains(ShortLinkHost + id, "youtube")
  {
    ShortLinkJoined(id);
    ShortLinkPathNoYoutube(id);
    ContainsAfterPrefix("https://", "youtu.be/" + id, "youtube");
  }

  lemma ShortLinkNoGoogle(id: string)
    requires !Contains(id, "google")
    ensures !Contains(ShortLinkHost + id, "google")
  {
    ContainsAfterPrefix(ShortLinkHost, id, "google");
  }

  lemma ShortLinkNoDerivative(id: string)
    requires !Contains(id, "differentiate")
    ensures !Contains(ShortLinkHost + id, "differentiate")
  {
    ContainsAfterPrefix(ShortLinkHost, id, "differentiate");
  }

  lemma ShortLinkNoIntegral(id: string)
    requires !Contains(id, "integrate")
    ensures !Contains(ShortLinkHost + id, "integrate")
  {
    ContainsAfterPrefix(ShortLinkHost, id, "integrate");
  }

  lemma ShortLinkAsksWikipedia(id: string)
    requires Clean(id)
    requires !Contains(id, "youtube") && !Contains(id, "google")
    requires !Contains(id, "differentiate") && !Contains(id, "integrate")
    ensures Normalize(ShortLinkHost + id) == ShortLinkHost + id
    ensures Classify(Normalize(ShortLinkHost + id)) == SummaryIntent
  {
    ShortLinkHostClean();
    CleanJoinNormal(ShortLinkHost, id);
    ShortLinkNoYoutube(id);
    ShortLinkNoGoogle(id);
    ShortLinkNoDerivative(id);
    ShortLinkNoIntegral(id);
    ClassifyOrder(ShortLinkHost + id);
  }

  lemma ShortLinkNoFiller(id: string)
    requires !Contains(id, "give me links for")
    ensures !Contains(ShortLinkHost + id, "give me links for")
  {
    ContainsAfterPrefix(ShortLinkHost, id, "give me links for");
  }

  /** The short link passes the handler's address test. */
  lemma ShortLinkIsVideo(id: string)
    ensures IsVideoUrl(ShortLinkHost + id)
  {
    assert (ShortLinkHost + id)[..16] == "https://youtu.be";
  }

  /** With the keyword in front, the short link is a video request, and the
      handler hands the link back alone without searching. */
  lemma YoutubeShortLink(id: string, search: string -> VideoSearch)
    requires Clean(id)
    requires !Contains(id, "youtube") && !Contains(id, "give me links for")
    requires !Contains(id, "differentiate") && !Contains(id, "integrate")
    ensures Classify(Normalize("youtube " + (ShortLinkHost + id))) == VideoIntent
    ensures VideoTopic(Normalize("youtube " + (ShortLinkHost + id))) == ShortLinkHost + id
    ensures VideoLinks(ShortLinkHost + id, 5, search) == [ShortLinkHost + id]
  {
    ShortLinkHostClean();
    CleanConcat(ShortLinkHost, id);
    CleanFixed(ShortLinkHost + id);
    ShortLinkNoYoutube(id);
    ShortLinkNoFiller(id);
    ShortLinkNoDerivative(id);
    ShortLinkNoIntegral(id);
    VideoRequest(ShortLinkHost + id);
    ShortLinkIsVideo(id);
    VideoLinksBound(ShortLinkHost + id, 5, search);
  }

  // ---------------------------------------------------------------------
  // A pasted watch URL loses "youtube" from its host name before the
  // handler sees it, so the handler's address test no longer matches and
  // the mangled text is searched for.

  const MangledWatchUrl := "https://www..com/watch?v="

  lemma WatchUrlClean()
    ensures Clean(WatchUrl)
  {
  }

  lemma WatchUrlSplit(id: string)
    ensures WatchUrl + id == "https://www." + ("youtube" + (".com/watch?v=" + id))
    ensures WatchUrl + id == "https://www." + "youtube" + (".com/watch?v=" + id)
  {
  }

  lemma MangledSplit(id: string)
    ensures MangledWatchUrl + id == "https://www." + (".com/watch?v=" + id)
  {
  }

  lemma PastedMentionsYoutube(id: string)
    ensures Contains(WatchUrl + id, "youtube")
  {
    WatchUrlSplit(id);
    ContainsMiddle("https://www.", "youtube", ".com/watch?v=" + id);
  }

  lemma PastedNoDerivative(id: string)
    requires !Contains(id, "differentiate")
    ensures !Contains(WatchUrl + id, "differentiate")
  {
    ContainsAfterPrefix(WatchUrl, id, "differentiate");
  }

  lemma PastedNoIntegral(id: string)
    requires !Contains(id, "integrate")
    ensures !Contains(WatchUrl + id, "integrate")
  {
    ContainsAfterPrefix(WatchUrl, id, "integrate");
  }

  lemma PathNoYoutube(id: string)
    requires !Contains(id, "youtube")
    ensures !Contains(".com/watch?v=" + id, "youtube")
  {
    ContainsAfterPrefix(".com/watch?v=", id, "youtube");
  }

  lemma PathKept(id: string)
    requires !Contains(id, "youtube")
    ensures RemoveAll("youtube" + (".com/watch?v=" + id), "youtube") == ".com/watch?v=" + id
  {
    PathNoYoutube(id);
    RemoveAllLeading("youtube", ".com/watch?v=" + id);
  }

  lemma PastedDropKeyword(id: string)
    requires !Contains(id, "youtube")
    ensures RemoveAll(WatchUrl + id, "youtube") == MangledWatchUrl + id
  {
    WatchUrlSplit(id);
    MangledSplit(id);
    PathKept(id);
    RemoveAllAfterPrefix("https://www.", "youtube" + (".com/watch?v=" + id), "youtube");
  }

  lemma MangledNoYoutube(id: string)
    requires !Contains(id, "youtube")
    ensures !Contains(MangledWatchUrl + id, "youtube")
  {
    ContainsAfterPrefix(MangledWatchUrl, id, "youtube");
  }

  lemma MangledNoFiller(id: string)
    requires !Contains(id, "give me links for")
    ensures RemoveAll(MangledWatchUrl + id, "give me links for") == MangledWatchUrl + id
  {
    ContainsAfterPrefix(MangledWatchUrl, id, "give me links for");
    RemoveAllUnchangedIff(MangledWatchUrl + id, "give me links for");
  }

  lemma MangledNoSite(id: string)
    requires !Contains(id, "youtube")
    ensures RemoveAll(MangledWatchUrl + id, "on youtube") == MangledWatchUrl + id
  {
    MangledNoYoutube(id);
    SiteAbsent("youtube", "on youtube", MangledWatchUrl + id);
    RemoveAllUnchangedIff(MangledWatchUrl + id, "on youtube");
  }

  /** The host lost its name: it is no longer "www.youtube.com", and it
      never was "youtu.be". */
  lemma MangledNotAddress(id: string)
    requires Clean(id)
    ensures Strip(MangledWatchUrl + id) == MangledWatchUrl + id
    ensures !IsVideoUrl(MangledWatchUrl + id)
  {
    MangledStripped(id);
    MangledNotVideo(id);
  }

  lemma MangledStripped(id: string)
    requires Clean(id)
    ensures Strip(MangledWatchUrl + id) == MangledWatchUrl + id
  {
    var m := MangledWatchUrl + id;
    assert m[0] == 'h' && m[|m| - 1] == id[|id| - 1];
    StripFixed(m);
  }

  lemma MangledNotVideo(id: string)
    ensures !IsVideoUrl(MangledWatchUrl + id)
  {
    var m := MangledWatchUrl + id;
    assert m[..23][12] == '.';
    assert m[..16][8] == 'w';
  }

  lemma PastedWatchUrl(id: string, search: string -> VideoSearch)
    requires Clean(id)
    requires !Contains(id, "youtube") && !Contains(id, "give me links for")
    requires !Contains(id, "differentiate") && !Contains(id, "integrate")
    ensures Classify(Normalize(WatchUrl + id)) == VideoIntent
    ensures VideoTopic(Normalize(WatchUrl + id)) == MangledWatchUrl + id
    ensures VideoLinks(MangledWatchUrl + id, 5, search)
      == match search(MangledWatchUrl + id)
         case SearchFailed(e) => [VideoErrorPrefix + e]
         case Results(items) => CollectLinks(SliceTo(items, 5))
  {
    WatchUrlClean();
    CleanJoinNormal(WatchUrl, id);
    PastedMentionsYoutube(id);
    PastedNoDerivative(id);
    PastedNoIntegral(id);
    ClassifyOrder(WatchUrl + id);
    PastedDropKeyword(id);
    MangledNoFiller(id);
    MangledNoSite(id);
    MangledNotAddress(id);
  }
}
