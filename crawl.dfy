/**
 * The crawler in backend/crawl.py: turning the NHK feed into article
 * descriptors, the browser walk through the consent gates, and the
 * paragraph extraction. The browser, the network and the HTML parser are
 * not modelled; what they answer is given as input (a feed response, the
 * answers of the visibility probes, the texts of the matched nodes).
 */
module Crawl {
  import opened Wrappers
  import opened Text

  // ---------------------------------------------------------------------------
  // The article list (fetch_nhk_news)
  // ---------------------------------------------------------------------------

  /** Every article page lives under this prefix, followed by the article id. */
  const ArticleUrlPrefix: string := "https://news.web.nhk/newsweb/na/na-"
  const HtmlSuffix: string := ".html"

  /** The `link` member of a feed entry as JSON gives it: absent, a string, `null`, or any other value. */
  datatype LinkValue = NoLink | LinkText(text: string) | LinkNull | LinkOther

  /**
   * One element of the feed's `channel.item` list: a JSON object, read for its
   * `id`, `title` and `link` (an absent or `null` id or title is `None`), or
   * any other JSON value.
   */
  datatype FeedEntry = Item(id: Option<string>, title: Option<string>, link: LinkValue) | NotAnObject

  /** What the rest of the pipeline knows of an article before its page is fetched. */
  datatype Descriptor = Descriptor(id: Option<string>, title: Option<string>, url: string)

  /** The feed object as far as the crawler reads it: `channel.item`, each part possibly absent. */
  datatype Channel = Channel(item: Option<seq<FeedEntry>>)
  datatype Body = Undecodable | Decoded(channel: Option<Channel>)

  /** The outcome of the HTTP request: no answer at all (error, timeout), or a status and a body. */
  datatype ListResponse = Unreachable | Response(status: int, body: Body)

  /** The article id carried by a link: its last path segment with every ".html" removed. */
  function LinkId(link: string): string {
    RemoveAll(LastSegment(link), HtmlSuffix)
  }

  /**
   * `item.get('link', '')` as far as `split` can take it: an absent link is
   * the empty string; a `null` or non-string link has no `split`, and None
   * stands for the exception that raises.
   */
  function LinkString(link: LinkValue): Option<string> {
    match link
    case NoLink => Some("")
    case LinkText(s) => Some(s)
    case _ => None
  }

  /**
   * The descriptor built for one feed entry, or None where building it
   * raises: an entry that is not an object has no `get`, and a link that is
   * not a string has no `split`.
   */
  function Describe(entry: FeedEntry): Option<Descriptor> {
    if entry.NotAnObject? || LinkString(entry.link).None? then None
    else Some(Descriptor(entry.id, entry.title, ArticleUrlPrefix + LinkId(LinkString(entry.link).value)))
  }

  /**
   * The entries the crawler walks over: those of a decoded 200 response.
   * Every other outcome (no response, another status, an undecodable body,
   * a missing `channel` or `item`) leaves nothing to walk over.
   */
  function FeedItems(resp: ListResponse): seq<FeedEntry> {
    match resp
    case Response(200, Decoded(Some(Channel(Some(items))))) => items
    case _ => []
  }

  /** Every entry of `entries` yields a descriptor without raising. */
  predicate AllDescribed(entries: seq<FeedEntry>) {
    forall i :: 0 <= i < |entries| ==> Describe(entries[i]).Some?
  }

  /**
   * fetch_nhk_news: one descriptor per feed entry, in feed order, none
   * skipped. Any failure, a failed request or one entry whose descriptor
   * cannot be built, is caught by the surrounding `try` and yields the empty
   * list for the whole feed.
   */
  method FetchNhkNews(resp: ListResponse) returns (articles: seq<Descriptor>)
    ensures AllDescribed(FeedItems(resp)) ==>
              |articles| == |FeedItems(resp)|
              && forall i :: 0 <= i < |articles| ==> Describe(FeedItems(resp)[i]) == Some(articles[i])
    ensures !AllDescribed(FeedItems(resp)) ==> articles == []
  {
    var items := FeedItems(resp);
    articles := [];
    for i := 0 to |items|
      invariant |articles| == i
      invariant forall k :: 0 <= k < i ==> Describe(items[k]) == Some(articles[k])
    {
      var item := items[i];
      if item.NotAnObject? {
        articles := [];
        return;
      }
      var rawLink := LinkString(item.link);
      if rawLink.None? {
        articles := [];
        return;
      }
      var fullId := RemoveAll(LastSegment(rawLink.value), HtmlSuffix);
      articles := articles + [Descriptor(item.id, item.title, ArticleUrlPrefix + fullId)];
    }
  }

  /** A failed request, a status other than 200 or an undecodable body gives no descriptors. */
  lemma FailedListIsEmpty(resp: ListResponse)
    requires resp.Unreachable? || resp.status != 200 || resp.body.Undecodable?
    ensures FeedItems(resp) == []
  {
  }

  /** Building a descriptor raises exactly for a non-object entry or a `null` or non-string link. */
  lemma DescribeRaisesIff(entry: FeedEntry)
    ensures Describe(entry).None? <==> entry.NotAnObject? || entry.link.LinkNull? || entry.link.LinkOther?
  {
  }

  /** The url of an entry is the fixed prefix followed by a string with no '/' in it. */
  lemma DescribeUrlShape(entry: FeedEntry)
    requires Describe(entry).Some?
    ensures StartsWith(Describe(entry).value.url, ArticleUrlPrefix)
    ensures '/' !in Describe(entry).value.url[|ArticleUrlPrefix|..]
  {
    var link := LinkString(entry.link).value;
    var seg := LastSegment(link);
    var id := RemoveAll(seg, HtmlSuffix);
    assert Describe(entry).value.url[|ArticleUrlPrefix|..] == id;
    LastSegmentSpec(link);
    RemoveAllKeepsOut(seg, HtmlSuffix, '/');
  }

  /** Removing occurrences of a pattern never introduces a character. */
  lemma {:induction false} RemoveAllKeepsOut(s: string, pat: string, c: char)
    requires pat != [] && c !in s
    ensures c !in RemoveAll(s, pat)
    decreases |s|
  {
    if |s| >= |pat| {
      if s[..|pat|] == pat {
        RemoveAllKeepsOut(s[|pat|..], pat, c);
      } else {
        RemoveAllKeepsOut(s[1..], pat, c);
      }
    }
  }

  /**
   * For a link of the usual shape ".../<id>.html", where the id holds neither
   * '/' nor '.', the descriptor's url is the prefix followed by exactly that id.
   */
  lemma DescribeUsualLink(id: Option<string>, title: Option<string>, dir: string, aid: string)
    requires '/' !in aid && '.' !in aid
    ensures Describe(Item(id, title, LinkText(dir + "/" + aid + HtmlSuffix)))
            == Some(Descriptor(id, title, ArticleUrlPrefix + aid))
  {
    var link := dir + "/" + aid + HtmlSuffix;
    var seg := aid + HtmlSuffix;
    LastSegmentAfterSlash(dir, seg);
    assert dir + "/" + seg == link;
    RemoveAllSuffix(aid, HtmlSuffix);
  }

  /**
   * Every ".html" of the last segment goes, not only a trailing one: in
   * `<a>.html<b>` with no '.' in `<a>`, the id is `<a>` followed by what
   * removing every ".html" leaves of `<b>`.
   */
  lemma DescribeRemovesEveryHtml(dir: string, a: string, b: string)
    requires '/' !in a + HtmlSuffix + b && '.' !in a
    ensures LinkId(dir + "/" + a + HtmlSuffix + b) == a + RemoveAll(b, HtmlSuffix)
  {
    var seg := a + HtmlSuffix + b;
    LastSegmentAfterSlash(dir, seg);
    assert dir + "/" + seg == dir + "/" + a + HtmlSuffix + b;
    RemoveAllSkipsMatch(a, HtmlSuffix, b);
  }

  /** The last segment of `dir + "/" + seg` is `seg` when `seg` holds no '/'. */
  lemma {:induction false} LastSegmentAfterSlash(dir: string, seg: string)
    requires '/' !in seg
    ensures LastSegment(dir + "/" + seg) == seg
    decreases |seg|
  {
    var s := dir + "/" + seg;
    if seg != [] {
      var init := seg[..|seg| - 1];
      assert s[..|s| - 1] == dir + "/" + init;
      assert s[|s| - 1] == seg[|seg| - 1];
      LastSegmentAfterSlash(dir, init);
      assert init + [seg[|seg| - 1]] == seg;
    }
  }

  /** An object entry without a `link` member is kept: its url is the bare prefix. */
  lemma DescribeMissingLink(id: Option<string>, title: Option<string>)
    ensures Describe(Item(id, title, NoLink)) == Some(Descriptor(id, title, ArticleUrlPrefix))
  {
    assert LastSegment("") == "";
    assert LinkId("") == "";
    assert ArticleUrlPrefix + "" == ArticleUrlPrefix;
  }

  // ---------------------------------------------------------------------------
  // The consent gates (fetch_article_full_text, lines 100-149)
  // ---------------------------------------------------------------------------

  /** What one `is_visible()` probe answers; `ProbeError` stands for an exception it raises. */
  datatype Visibility = Visible | Hidden | ProbeError

  /**
   * The two locators of the second-tier confirmation button: by its role and
   * text, and by its class.
   */
  datatype Locator = ByText | ByClass

  /**
   * The answers of the browser: `probe(l, r)` is what `l.is_visible()` answers
   * in round `r`. Rounds 0 to 4 are the scroll rounds; round 5 is the last
   * probe, after the jump to the bottom of the page.
   */
  type Prober = (Locator, nat) -> Visibility

  /** The number of probe-and-scroll rounds before the final probe. */
  const ScrollRounds: nat := 5

  /** One round: the text locator is tried first, the class locator only if it is hidden. */
  datatype RoundResult = Pick(loc: Locator) | Miss | Fault

  function ProbeRound(probe: Prober, r: nat): (res: RoundResult)
    ensures res == Pick(ByText) <==> probe(ByText, r) == Visible
    ensures res == Pick(ByClass) <==> probe(ByText, r) == Hidden && probe(ByClass, r) == Visible
    ensures res == Miss <==> probe(ByText, r) == Hidden && probe(ByClass, r) == Hidden
  {
    match probe(ByText, r)
    case Visible => Pick(ByText)
    case ProbeError => Fault
    case Hidden =>
      match probe(ByClass, r)
      case Visible => Pick(ByClass)
      case ProbeError => Fault
      case Hidden => Miss
  }

  /** How the search for the second-tier button ends. */
  datatype Search = Found(loc: Locator, round: nat) | NotFound | Interrupted(round: nat)

  /** Both locators are hidden in every round from `lo` up to (not including) `hi`. */
  ghost predicate HiddenRounds(probe: Prober, lo: nat, hi: nat) {
    forall k :: lo <= k < hi ==> probe(ByText, k) == Hidden && probe(ByClass, k) == Hidden
  }

  /**
   * The search from round `r` on: it stops at the first round in which a
   * locator is visible (or a probe raises), preferring the text locator; a
   * search that reaches the end without success finds nothing.
   */
  function SearchFrom(probe: Prober, r: nat): (s: Search)
    requires r <= ScrollRounds
    ensures s.Found? || s.Interrupted? ==> r <= s.round <= ScrollRounds && HiddenRounds(probe, r, s.round)
    ensures s.Found? ==> probe(s.loc, s.round) == Visible
    ensures s.Found? && s.loc == ByClass ==> probe(ByText, s.round) == Hidden
    ensures s.Interrupted? ==> probe(ByText, s.round) == ProbeError
                               || (probe(ByText, s.round) == Hidden && probe(ByClass, s.round) == ProbeError)
    ensures s.NotFound? <==> HiddenRounds(probe, r, ScrollRounds + 1)
    decreases ScrollRounds - r
  {
    match ProbeRound(probe, r)
    case Pick(l) => Found(l, r)
    case Fault => Interrupted(r)
    case Miss => if r == ScrollRounds then NotFound else SearchFrom(probe, r + 1)
  }

  /** What the second gate ends in; every failure is absorbed and reported, never raised. */
  datatype GateBOutcome = Confirmed(loc: Locator) | ClickFailed(loc: Locator) | Absent | ProbeFailed

  function GateB(probe: Prober, clickOk: bool): GateBOutcome {
    match SearchFrom(probe, 0)
    case Found(l, _) => if clickOk then Confirmed(l) else ClickFailed(l)
    case NotFound => Absent
    case Interrupted(_) => ProbeFailed
  }

  /** The number of mouse-wheel scrolls a search performs: one per round that saw nothing. */
  function WheelScrolls(s: Search): nat {
    match s
    case Found(_, r) => if r < ScrollRounds then r else ScrollRounds
    case Interrupted(r) => if r < ScrollRounds then r else ScrollRounds
    case NotFound => ScrollRounds
  }

  /**
   * The second-tier gate (lines 114-149): up to five rounds of probe then
   * scroll, a jump to the bottom and one last probe, then a forced click on
   * the button found. `clickOk` is whether the scroll-into-view, the click and
   * the wait after it go through.
   */
  method SecondGate(probe: Prober, clickOk: bool) returns (outcome: GateBOutcome, wheels: nat)
    ensures outcome == GateB(probe, clickOk)
    ensures wheels == WheelScrolls(SearchFrom(probe, 0)) && wheels <= ScrollRounds
  {
    var target: Option<Locator> := None;
    var raised := false;
    wheels := 0;
    for i := 0 to ScrollRounds
      invariant wheels == i
      invariant SearchFrom(probe, 0) == SearchFrom(probe, i)
    {
      var textShown := probe(ByText, i);
      if textShown == ProbeError {
        raised := true;
        break;
      }
      if textShown == Visible {
        target := Some(ByText);
        break;
      }
      var classShown := probe(ByClass, i);
      if classShown == ProbeError {
        raised := true;
        break;
      }
      if classShown == Visible {
        target := Some(ByClass);
        break;
      }
      wheels := wheels + 1;
    }
    if !raised && target.None? {
      // jump to the bottom of the page and probe once more
      var textShown := probe(ByText, ScrollRounds);
      if textShown == ProbeError {
        raised := true;
      } else if textShown == Visible {
        target := Some(ByText);
      } else {
        var classShown := probe(ByClass, ScrollRounds);
        if classShown == ProbeError {
          raised := true;
        } else if classShown == Visible {
          target := Some(ByClass);
        }
      }
    }
    if raised {
      outcome := ProbeFailed;
    } else if target.Some? {
      outcome := if clickOk then Confirmed(target.value) else ClickFailed(target.value);
    } else {
      outcome := Absent;
    }
  }

  /** The first-tier gate (lines 100-112): a bounded probe, then the acknowledgement clicks. */
  datatype GateAOutcome = Passed | NotShown | Skipped

  /**
   * `shown` is what the bounded probe answers; `stepsOk` is whether the
   * clicks, the region choice and the "start service" click all go through.
   * An exception anywhere in the block is absorbed as `Skipped`.
   */
  function GateA(shown: Visibility, stepsOk: bool): (g: GateAOutcome)
    ensures g == Passed <==> shown == Visible && stepsOk
    ensures g == NotShown <==> shown == Hidden
  {
    match shown
    case Visible => if stepsOk then Passed else Skipped
    case Hidden => NotShown
    case ProbeError => Skipped
  }

  /** A page without any second-tier button: the search runs every round and finds nothing. */
  lemma NoGateMeansAbsent(probe: Prober, clickOk: bool)
    requires forall l: Locator, r: nat :: probe(l, r) == Hidden
    ensures GateB(probe, clickOk) == Absent
    ensures WheelScrolls(SearchFrom(probe, 0)) == ScrollRounds
  {
    assert HiddenRounds(probe, 0, ScrollRounds + 1);
  }

  /** When both locators show the button in the deciding round, the text locator is the one clicked. */
  lemma TextLocatorPreferred(probe: Prober, clickOk: bool)
    requires SearchFrom(probe, 0).Found?
    requires probe(ByText, SearchFrom(probe, 0).round) == Visible
    ensures GateB(probe, clickOk) == (if clickOk then Confirmed(ByText) else ClickFailed(ByText))
  {
  }

  // ---------------------------------------------------------------------------
  // Paragraph extraction (line 158) and the whole page fetch
  // ---------------------------------------------------------------------------

  /**
   * The paragraphs of a page, given the texts of the matched `p`/`h3` nodes in
   * document order: each text stripped, the empty ones dropped.
   */
  function Paragraphs(texts: seq<string>): seq<string> {
    KeepNonEmpty(MapEach(Strip, texts))
  }

  /** `f` applied to every string of `ts`, in order. */
  function MapEach(f: string -> string, ts: seq<string>): (r: seq<string>)
    ensures |r| == |ts|
    ensures forall i :: 0 <= i < |ts| ==> r[i] == f(ts[i])
  {
    seq(|ts|, i requires 0 <= i < |ts| => f(ts[i]))
  }

  /** The comprehension's filter: the non-empty strings, in order. */
  function KeepNonEmpty(ts: seq<string>): seq<string> {
    if ts == [] then []
    else (if ts[0] != [] then [ts[0]] else []) + KeepNonEmpty(ts[1..])
  }

  /** The filter keeps exactly the non-empty members, and never adds any. */
  lemma {:induction false} KeepNonEmptyMember(ts: seq<string>, p: string)
    ensures |KeepNonEmpty(ts)| <= |ts|
    ensures p in KeepNonEmpty(ts) <==> p != [] && p in ts
  {
    if ts != [] {
      KeepNonEmptyMember(ts[1..], p);
      assert ts == [ts[0]] + ts[1..];
    }
  }

  /** The filter distributes over concatenation. */
  lemma {:induction false} KeepNonEmptyAppend(a: seq<string>, b: seq<string>)
    ensures KeepNonEmpty(a + b) == KeepNonEmpty(a) + KeepNonEmpty(b)
  {
    if a != [] {
      assert (a + b)[1..] == a[1..] + b;
      KeepNonEmptyAppend(a[1..], b);
    } else {
      assert a + b == b;
    }
  }

  /** A sequence without empty strings passes the filter unchanged. */
  lemma {:induction false} KeepNonEmptyAll(ts: seq<string>)
    requires forall i :: 0 <= i < |ts| ==> ts[i] != []
    ensures KeepNonEmpty(ts) == ts
  {
    if ts != [] {
      KeepNonEmptyAll(ts[1..]);
      assert [ts[0]] + ts[1..] == ts;
    }
  }

  /** At most one paragraph per node; every paragraph is non-empty and its own strip. */
  lemma ParagraphsClean(texts: seq<string>)
    ensures |Paragraphs(texts)| <= |texts|
    ensures forall p :: p in Paragraphs(texts) ==> p != [] && Strip(p) == p
  {
    var stripped := MapEach(Strip, texts);
    KeepNonEmptyMember(stripped, []);
    forall p | p in Paragraphs(texts) ensures p != [] && Strip(p) == p {
      KeepNonEmptyMember(stripped, p);
      var i :| 0 <= i < |stripped| && stripped[i] == p;
      StripIdempotent(texts[i]);
    }
  }

  /** Extraction keeps document order: the paragraphs of two runs of nodes are concatenated. */
  lemma ParagraphsAppend(a: seq<string>, b: seq<string>)
    ensures Paragraphs(a + b) == Paragraphs(a) + Paragraphs(b)
  {
    MapEachAppend(Strip, a, b);
    KeepNonEmptyAppend(MapEach(Strip, a), MapEach(Strip, b));
  }

  lemma MapEachAppend(f: string -> string, a: seq<string>, b: seq<string>)
    ensures MapEach(f, a + b) == MapEach(f, a) + MapEach(f, b)
  {
    var l, r := MapEach(f, a + b), MapEach(f, a) + MapEach(f, b);
    forall i | 0 <= i < |a| + |b| ensures l[i] == r[i] {
      if i < |a| {
        assert (a + b)[i] == a[i];
      } else {
        assert (a + b)[i] == b[i - |a|];
      }
    }
  }

  /** Some node's text strips to `p`. */
  ghost predicate StripsTo(texts: seq<string>, p: string) {
    exists i :: 0 <= i < |texts| && Strip(texts[i]) == p
  }

  /** A string is a paragraph exactly when it is the non-empty strip of some node's text. */
  lemma ParagraphsMember(texts: seq<string>, p: string)
    ensures p in Paragraphs(texts) <==> p != [] && StripsTo(texts, p)
  {
    var stripped := MapEach(Strip, texts);
    KeepNonEmptyMember(stripped, p);
    if p in stripped {
      var i :| 0 <= i < |stripped| && stripped[i] == p;
      assert Strip(texts[i]) == p;
    }
    if StripsTo(texts, p) {
      var i :| 0 <= i < |texts| && Strip(texts[i]) == p;
      assert stripped[i] == p;
    }
  }

  /** Extracting from already extracted paragraphs changes nothing. */
  lemma ParagraphsIdempotent(texts: seq<string>)
    ensures Paragraphs(Paragraphs(texts)) == Paragraphs(texts)
  {
    var ps := Paragraphs(texts);
    ParagraphsClean(texts);
    assert MapEach(Strip, ps) == ps by {
      forall i | 0 <= i < |ps| ensures MapEach(Strip, ps)[i] == ps[i] {
        assert ps[i] in ps;
      }
    }
    forall i | 0 <= i < |ps| ensures ps[i] != [] {
      assert ps[i] in ps;
    }
    KeepNonEmptyAll(ps);
  }

  /**
   * What the browser does on one article page. `launched`: the browser
   * starts (after the install-and-retry when the executable is missing);
   * `loaded`: the page is opened; `captured`: the markup is read and the
   * browser closed. The gate answers are those of the two gates, and
   * `nodeTexts` the texts of the matched nodes of the final markup.
   */
  datatype Page = Page(launched: bool, loaded: bool,
                       gateAShown: Visibility, gateAStepsOk: bool,
                       gateBProbe: Prober, gateBClickOk: bool,
                       captured: bool, nodeTexts: seq<string>)

  /** What happened at the two gates, when the page was opened at all. */
  datatype GateTrace = NotOpened | Opened(gateA: GateAOutcome, gateB: GateBOutcome)

  /**
   * fetch_article_full_text: open the page, get past the gates as far as
   * possible, extract the paragraphs. Nothing at the gates can stop the
   * extraction; only a failure outside them yields the empty list.
   */
  method FetchArticleFullText(page: Page) returns (paragraphs: seq<string>, trace: GateTrace)
    ensures page.launched && page.loaded && page.captured ==> paragraphs == Paragraphs(page.nodeTexts)
    ensures !(page.launched && page.loaded && page.captured) ==> paragraphs == []
    ensures trace.Opened? <==> page.launched && page.loaded
    ensures trace.Opened? ==> trace.gateA == GateA(page.gateAShown, page.gateAStepsOk)
                              && trace.gateB == GateB(page.gateBProbe, page.gateBClickOk)
  {
    if !page.launched || !page.loaded {
      return [], NotOpened;
    }
    var gateA := GateA(page.gateAShown, page.gateAStepsOk);
    var gateB, _ := SecondGate(page.gateBProbe, page.gateBClickOk);
    trace := Opened(gateA, gateB);
    if !page.captured {
      return [], trace;
    }
    paragraphs := Paragraphs(page.nodeTexts);
  }
}
