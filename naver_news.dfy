/** The deduplicating article collector of `naver_news.py`: one search per
    keyword, a fingerprint set that keeps each link from being fetched twice,
    a fetch with at most three attempts, and a minimum body length.

    The network is a parameter. `SearchApi` answers a search URL with the
    `items` of the JSON reply (`None` when the reply has no `items` key);
    `Transport` gives the outcome of the k-th GET of a page (k = 0, 1, 2), that
    is either an exception or the text of each `<p>` element; `Fingerprint`
    stands for `hashlib.md5(link.encode()).hexdigest()`. */
module NaverNews {
  import opened Wrappers
  import opened Text

  /** `stock_prediction_keywords_kr`. */
  const StockPredictionKeywordsKr: seq<string> := ["주식", "증권", "투자", "경제", "주가", "금융"]

  /** The number of attempts `get_article_content` makes. */
  const RetryCount: nat := 3

  /** Bodies shorter than this are dropped. */
  const MinContentLength: nat := 300

  /** The fields of a search item the collector reads. */
  datatype Item = Item(title: string, link: string, description: string, pubDate: string)

  /** One entry of `news_data`. */
  datatype Article = Article(title: string, link: string, description: string, content: string, pubDate: string)

  /** One GET of an article page: it raised, or it returned a page whose
      paragraphs (`p.get_text()` of every `<p>`) are given. */
  datatype Attempt = Raised | Page(paragraphs: seq<string>)

  type Transport = (string, nat) -> Attempt
  type SearchApi = string -> Option<seq<Item>>
  type Fingerprint = string -> string

  /** `get_article_content` as the collector sees it: a body, or `None`, per link. */
  type Fetch = string -> Option<string>

  // ---------------------------------------------------------------------------
  // get_naver_news: the request URL
  // ---------------------------------------------------------------------------

  /** The fixed part of the request URL, up to the query text. */
  const QueryPrefix: string := "https://openapi.naver.com/v1/search/news.json?query="

  /** The parameters after the query text, from `display=` on. */
  function ParamsAfterQuery(start: int, display: int, sort: string): string
  {
    "display=" + IntToString(display) + "&start=" + IntToString(start) + "&sort=" + sort
  }

  /** The URL of `get_naver_news(query, start, display, sort)`; the query is
      interpolated as it is, without percent-encoding. */
  function NewsUrl(query: string, start: int, display: int, sort: string): string
  {
    QueryPrefix + query + "&" + ParamsAfterQuery(start, display, sort)
  }

  /** The URL the collector requests for one keyword. */
  function KeywordUrl(keyword: string): string
  {
    NewsUrl(keyword, 1, 100, "sim")
  }

  /** The value of the `query` parameter of a URL built by `NewsUrl`. */
  function QueryOf(url: string): Option<string>
  {
    if |QueryPrefix| <= |url| && url[..|QueryPrefix|] == QueryPrefix then Some(TakeUntil(url[|QueryPrefix|..], '&')) else None
  }

  /** A query without `&` is read back from the URL unchanged. */
  lemma NewsUrlQuery(query: string, start: int, display: int, sort: string)
    requires '&' !in query
    ensures QueryOf(NewsUrl(query, start, display, sort)) == Some(query)
  {
    var rest := ParamsAfterQuery(start, display, sort);
    var tail := query + ['&'] + rest;
    PrefixedBy(QueryPrefix, query, rest);
    SplitAfterPrefix(QueryPrefix, tail);
    TakeUntilOf(query, '&', rest);
  }

  lemma PrefixedBy(prefix: string, query: string, rest: string)
    ensures prefix + query + "&" + rest == prefix + (query + ['&'] + rest)
  {
  }

  lemma SplitAfterPrefix(prefix: string, tail: string)
    ensures |prefix| <= |prefix + tail|
    ensures (prefix + tail)[..|prefix|] == prefix && (prefix + tail)[|prefix|..] == tail
  {
  }

  /** The six keywords are searched under six different URLs. */
  lemma KeywordUrlsDistinct()
    ensures forall a, b :: 0 <= a < b < |StockPredictionKeywordsKr| ==>
              KeywordUrl(StockPredictionKeywordsKr[a]) != KeywordUrl(StockPredictionKeywordsKr[b])
  {
    forall a, b | 0 <= a < b < |StockPredictionKeywordsKr|
      ensures KeywordUrl(StockPredictionKeywordsKr[a]) != KeywordUrl(StockPredictionKeywordsKr[b])
    {
      var ka, kb := StockPredictionKeywordsKr[a], StockPredictionKeywordsKr[b];
      assert '&' !in ka && '&' !in kb && ka != kb;
      NewsUrlQuery(ka, 1, 100, "sim");
      NewsUrlQuery(kb, 1, 100, "sim");
    }
  }

  // ---------------------------------------------------------------------------
  // get_article_content
  // ---------------------------------------------------------------------------

  /** `[p.get_text().strip() for p in paragraphs]`. */
  function StripAll(paragraphs: seq<string>): (r: seq<string>)
    ensures |r| == |paragraphs|
  {
    if paragraphs == [] then [] else [Strip(paragraphs[0])] + StripAll(paragraphs[1..])
  }

  /** The `i`-th stripped paragraph is the `i`-th paragraph, stripped. */
  lemma {:induction false} StripAllAt(paragraphs: seq<string>, i: nat)
    requires i < |paragraphs|
    ensures StripAll(paragraphs)[i] == Strip(paragraphs[i])
  {
    if i > 0 {
      StripAllAt(paragraphs[1..], i - 1);
    }
  }

  /** `' '.join([p.get_text().strip() for p in paragraphs]).strip()`. */
  function ArticleText(paragraphs: seq<string>): string
  {
    Strip(Join(" ", StripAll(paragraphs)))
  }

  /** The body is empty exactly when every paragraph is blank. */
  lemma ArticleTextEmpty(paragraphs: seq<string>)
    ensures ArticleText(paragraphs) == [] <==> forall i :: 0 <= i < |paragraphs| ==> AllSpace(paragraphs[i])
  {
    var stripped := StripAll(paragraphs);
    StripSpec(Join(" ", stripped));
    assert AllSpace(" ");
    JoinAllSpace(" ", stripped);
    forall i | 0 <= i < |paragraphs| ensures AllSpace(stripped[i]) <==> AllSpace(paragraphs[i]) {
      StripAllAt(paragraphs, i);
      StripAllSpace(paragraphs[i]);
    }
  }

  /** When no paragraph is blank, the outer `strip()` changes nothing: the body
      is the stripped paragraphs joined by single spaces. */
  lemma ArticleTextOfNonBlank(paragraphs: seq<string>)
    requires |paragraphs| > 0
    requires forall i :: 0 <= i < |paragraphs| ==> !AllSpace(paragraphs[i])
    ensures ArticleText(paragraphs) == Join(" ", StripAll(paragraphs))
  {
    StrippedNonBlank(paragraphs);
    JoinOfTrimmed(" ", StripAll(paragraphs));
    StripOfTrimmed(Join(" ", StripAll(paragraphs)));
  }

  /** A paragraph that is not blank is, once stripped, non-empty and neither
      starts nor ends with whitespace. */
  lemma StrippedNonBlank(paragraphs: seq<string>)
    requires forall i :: 0 <= i < |paragraphs| ==> !AllSpace(paragraphs[i])
    ensures forall i :: 0 <= i < |paragraphs| ==> Trimmed(StripAll(paragraphs)[i])
  {
    forall i | 0 <= i < |paragraphs| ensures Trimmed(StripAll(paragraphs)[i]) {
      StripAllAt(paragraphs, i);
      StripSpec(paragraphs[i]);
    }
  }

  /** What `get_article_content(url)` returns, attempt `k` onwards. */
  function ContentFrom(url: string, transport: Transport, k: nat): Option<string>
    requires k <= RetryCount
    decreases RetryCount - k
  {
    if k == RetryCount then None
    else match transport(url, k)
      case Page(paragraphs) => Some(ArticleText(paragraphs))
      case Raised => ContentFrom(url, transport, k + 1)
  }

  /** What `get_article_content(url)` returns. */
  function ArticleContent(url: string, transport: Transport): Option<string>
  {
    ContentFrom(url, transport, 0)
  }

  /** `get_article_content` over a given transport. */
  function Fetcher(transport: Transport): Fetch
  {
    (link: string) => ArticleContent(link, transport)
  }

  /** How many GET requests `get_article_content(url)` makes, attempt `k` onwards. */
  function AttemptsFrom(url: string, transport: Transport, k: nat): nat
    requires k <= RetryCount
    decreases RetryCount - k
  {
    if k == RetryCount then 0
    else if transport(url, k).Page? then 1
    else 1 + AttemptsFrom(url, transport, k + 1)
  }

  /** How many GET requests `get_article_content(url)` makes. */
  function AttemptCount(url: string, transport: Transport): nat
  {
    AttemptsFrom(url, transport, 0)
  }

  /** `get_article_content(url)` makes between one and three requests, all but
      the last of which raised; it returns `None` exactly when all three raised,
      and otherwise the text of the first page it got, even an empty one. */
  lemma ArticleContentSpec(url: string, transport: Transport)
    ensures var n := AttemptCount(url, transport);
      && 1 <= n <= RetryCount
      && (forall k :: 0 <= k < n - 1 ==> transport(url, k).Raised?)
      && (ArticleContent(url, transport).None? <==> forall k :: 0 <= k < RetryCount ==> transport(url, k).Raised?)
      && (ArticleContent(url, transport).None? ==> n == RetryCount)
      && (ArticleContent(url, transport).Some? ==>
            transport(url, n - 1).Page?
            && ArticleContent(url, transport).value == ArticleText(transport(url, n - 1).paragraphs))
  {
  }

  /** `get_article_content(url)`: up to three attempts; the first one that does
      not raise ends the loop. */
  method GetArticleContent(url: string, transport: Transport) returns (content: Option<string>, attempts: nat)
    ensures content == ArticleContent(url, transport) && attempts == AttemptCount(url, transport)
  {
    attempts := 0;
    for i := 0 to RetryCount
      invariant attempts == i
      invariant ArticleContent(url, transport) == ContentFrom(url, transport, i)
      invariant AttemptCount(url, transport) == i + AttemptsFrom(url, transport, i)
    {
      var attempt := transport(url, i);
      attempts := attempts + 1;
      if attempt.Page? {
        content := Some(ArticleText(attempt.paragraphs));
        return;
      }
    }
    content := None;
  }

  /** A page that raises twice and then answers is read on the third attempt;
      one that always raises gives `None` after three attempts. */
  lemma RetryScenarios(url: string, text: string)
    ensures var flaky: Transport := (u, k) => if k < 2 then Raised else Page([text]);
      ArticleContent(url, flaky) == Some(Strip(text)) && AttemptCount(url, flaky) == 3
    ensures var dead: Transport := (u, k) => Raised;
      ArticleContent(url, dead) == None && AttemptCount(url, dead) == 3
  {
    var flaky: Transport := (u, k) => if k < 2 then Raised else Page([text]);
    assert ArticleText([text]) == Strip(text) by {
      StripIdempotent(text);
    }
    assert ContentFrom(url, flaky, 2) == Some(Strip(text));
  }

  // ---------------------------------------------------------------------------
  // collect_relevant_stock_news_kr: the reference definition
  // ---------------------------------------------------------------------------

  /** `news_result.get('items', [])`. */
  function ResultItems(result: Option<seq<Item>>): seq<Item>
  {
    match result
    case Some(items) => items
    case None => []
  }

  /** Every item the collector visits, keyword by keyword, in page order. */
  function VisitedItems(keywords: seq<string>, search: SearchApi): seq<Item>
  {
    if keywords == [] then []
    else VisitedItems(keywords[..|keywords| - 1], search) + ResultItems(search(KeywordUrl(keywords[|keywords| - 1])))
  }

  /** The URLs of the searches, one per keyword, in keyword order. */
  function SearchUrls(keywords: seq<string>): (r: seq<string>)
    ensures |r| == |keywords|
    ensures forall i :: 0 <= i < |keywords| ==> r[i] == NewsUrl(keywords[i], 1, 100, "sim")
  {
    if keywords == [] then [] else SearchUrls(keywords[..|keywords| - 1]) + [KeywordUrl(keywords[|keywords| - 1])]
  }

  /** No earlier item has the same fingerprint: the item's link is new. */
  predicate FirstSighting(items: seq<Item>, i: nat, fingerprint: Fingerprint)
    requires i < |items|
  {
    forall j :: 0 <= j < i ==> fingerprint(items[j].link) != fingerprint(items[i].link)
  }

  /** `if not article_content or len(article_content) < 300: continue`, negated. */
  predicate Acceptable(content: Option<string>) {
    content.Some? && |content.value| >= MinContentLength
  }

  /** Item `i` yields a record: its link is new and its body long enough. */
  predicate Selected(items: seq<Item>, i: nat, fetch: Fetch, fingerprint: Fingerprint)
    requires i < |items|
  {
    FirstSighting(items, i, fingerprint) && Acceptable(fetch(items[i].link))
  }

  function ToArticle(item: Item, content: string): Article
  {
    Article(item.title, item.link, item.description, content, item.pubDate)
  }

  /** The record of a selected item. */
  function RecordOf(items: seq<Item>, i: nat, fetch: Fetch, fingerprint: Fingerprint): Article
    requires i < |items| && Selected(items, i, fetch, fingerprint)
  {
    ToArticle(items[i], fetch(items[i].link).value)
  }

  /** The records, in item order, of the selected items. */
  function Kept(items: seq<Item>, fetch: Fetch, fingerprint: Fingerprint): seq<Article>
  {
    if items == [] then []
    else
      var n := |items| - 1;
      Kept(items[..n], fetch, fingerprint)
        + if Selected(items, n, fetch, fingerprint) then [RecordOf(items, n, fetch, fingerprint)] else []
  }

  /** The links whose bodies are requested, in order: every first sighting,
      whatever its fetch returns. */
  function FetchedLinks(items: seq<Item>, fingerprint: Fingerprint): seq<string>
  {
    if items == [] then []
    else
      var n := |items| - 1;
      FetchedLinks(items[..n], fingerprint) + if FirstSighting(items, n, fingerprint) then [items[n].link] else []
  }

  /** The fingerprint set after visiting `items`. */
  function Fingerprints(items: seq<Item>, fingerprint: Fingerprint): set<string>
  {
    set k | 0 <= k < |items| :: fingerprint(items[k].link)
  }

  // ---------------------------------------------------------------------------
  // collect_relevant_stock_news_kr: what the reference definition guarantees
  // ---------------------------------------------------------------------------

  /** The indices, in increasing order, of the selected items among the first `n`. */
  function SelectedBelow(items: seq<Item>, n: nat, fetch: Fetch, fingerprint: Fingerprint): seq<nat>
    requires n <= |items|
  {
    if n == 0 then []
    else SelectedBelow(items, n - 1, fetch, fingerprint)
           + if Selected(items, n - 1, fetch, fingerprint) then [n - 1] else []
  }

  /** `SelectedBelow` lists, in increasing order, exactly the selected indices below `n`. */
  lemma {:induction false} SelectedBelowSpec(items: seq<Item>, n: nat, fetch: Fetch, fingerprint: Fingerprint)
    requires n <= |items|
    ensures var idx := SelectedBelow(items, n, fetch, fingerprint);
      && (forall t :: 0 <= t < |idx| ==> idx[t] < n && Selected(items, idx[t], fetch, fingerprint))
      && (forall t, u :: 0 <= t < u < |idx| ==> idx[t] < idx[u])
      && (forall i :: 0 <= i < n ==> (i in idx <==> Selected(items, i, fetch, fingerprint)))
  {
    if n > 0 {
      SelectedBelowSpec(items, n - 1, fetch, fingerprint);
      var prev := SelectedBelow(items, n - 1, fetch, fingerprint);
      assert n - 1 !in prev;
      if Selected(items, n - 1, fetch, fingerprint) {
        var idx := prev + [n - 1];
        assert forall t :: 0 <= t < |prev| ==> idx[t] == prev[t];
      }
    }
  }

  lemma SelectedOfPrefix(items: seq<Item>, n: nat, i: nat, fetch: Fetch, fingerprint: Fingerprint)
    requires i < n <= |items|
    ensures Selected(items[..n], i, fetch, fingerprint) == Selected(items, i, fetch, fingerprint)
  {
    assert forall j :: 0 <= j <= i ==> items[..n][j] == items[j];
  }

  /** The records kept among the first `n` items: those among the first
      `n - 1`, then the record of item `n - 1` when it is selected. */
  lemma KeptLast(items: seq<Item>, n: nat, fetch: Fetch, fingerprint: Fingerprint)
    requires 0 < n <= |items|
    ensures Kept(items[..n], fetch, fingerprint) ==
              Kept(items[..n - 1], fetch, fingerprint)
                + if Selected(items, n - 1, fetch, fingerprint) then [RecordOf(items, n - 1, fetch, fingerprint)] else []
  {
    assert items[..n][..n - 1] == items[..n - 1];
    assert items[..n][n - 1] == items[n - 1];
    SelectedOfPrefix(items, n, n - 1, fetch, fingerprint);
  }

  lemma {:induction false} KeptOfPrefix(items: seq<Item>, n: nat, fetch: Fetch, fingerprint: Fingerprint)
    requires n <= |items|
    ensures var idx := SelectedBelow(items, n, fetch, fingerprint);
      var kept := Kept(items[..n], fetch, fingerprint);
      && |kept| == |idx|
      && forall t :: 0 <= t < |idx| ==>
           idx[t] < n && Selected(items, idx[t], fetch, fingerprint) && kept[t] == RecordOf(items, idx[t], fetch, fingerprint)
  {
    if n > 0 {
      KeptOfPrefix(items, n - 1, fetch, fingerprint);
      KeptLast(items, n, fetch, fingerprint);
    }
  }

  /** `news_data` holds, in item order, one record per selected item (a link
      not seen before whose body is long enough) and nothing else, and each
      record carries its item's title, link, description and date. */
  lemma KeptSpec(items: seq<Item>, fetch: Fetch, fingerprint: Fingerprint)
    ensures var idx := SelectedBelow(items, |items|, fetch, fingerprint);
      var kept := Kept(items, fetch, fingerprint);
      && |kept| == |idx|
      && (forall t, u :: 0 <= t < u < |idx| ==> idx[t] < idx[u])
      && (forall i :: 0 <= i < |items| ==> (i in idx <==> Selected(items, i, fetch, fingerprint)))
      && (forall t :: 0 <= t < |idx| ==>
            && idx[t] < |items| && Selected(items, idx[t], fetch, fingerprint)
            && kept[t] == ToArticle(items[idx[t]], fetch(items[idx[t]].link).value))
  {
    KeptOfPrefix(items, |items|, fetch, fingerprint);
    SelectedBelowSpec(items, |items|, fetch, fingerprint);
    assert items[..|items|] == items;
  }

  /** Every stored body is at least 300 characters long and is what
      `get_article_content` returned for the record's link. */
  lemma KeptContentLong(items: seq<Item>, fetch: Fetch, fingerprint: Fingerprint)
    ensures forall a :: a in Kept(items, fetch, fingerprint) ==>
              |a.content| >= MinContentLength && fetch(a.link) == Some(a.content)
  {
    KeptSpec(items, fetch, fingerprint);
  }

  /** No two records have the same fingerprint, hence no two the same link. */
  lemma KeptDistinct(items: seq<Item>, fetch: Fetch, fingerprint: Fingerprint)
    ensures var kept := Kept(items, fetch, fingerprint);
      forall t, u :: 0 <= t < u < |kept| ==>
        fingerprint(kept[t].link) != fingerprint(kept[u].link) && kept[t].link != kept[u].link
  {
    KeptSpec(items, fetch, fingerprint);
  }

  /** The fingerprints of some links. */
  function LinkPrints(links: seq<string>, fingerprint: Fingerprint): set<string>
  {
    set t | 0 <= t < |links| :: fingerprint(links[t])
  }

  lemma LinkPrintsSnoc(links: seq<string>, link: string, fingerprint: Fingerprint)
    ensures LinkPrints(links + [link], fingerprint) == LinkPrints(links, fingerprint) + {fingerprint(link)}
  {
    var s := links + [link];
    assert forall t :: 0 <= t < |links| ==> s[t] == links[t];
    assert s[|links|] == link;
  }

  /** Every link is fetched under its own fingerprint exactly once: the
      fingerprints of the fetched links are all different and are exactly the
      fingerprints of the items visited. Whether a fetch raised or returned a
      short body does not matter, since the mark comes before the fetch. */
  lemma {:induction false} FetchedOnce(items: seq<Item>, fingerprint: Fingerprint)
    ensures var fetched := FetchedLinks(items, fingerprint);
      && LinkPrints(fetched, fingerprint) == Fingerprints(items, fingerprint)
      && forall t, u :: 0 <= t < u < |fetched| ==> fingerprint(fetched[t]) != fingerprint(fetched[u])
  {
    if items != [] {
      var n := |items| - 1;
      var done := items[..n];
      var item := items[n];
      FetchedOnce(done, fingerprint);
      assert done + [item] == items;
      VisitStep(done, item, fingerprint);
      if fingerprint(item.link) !in Fingerprints(done, fingerprint) {
        LinkPrintsSnoc(FetchedLinks(done, fingerprint), item.link, fingerprint);
        var prev := FetchedLinks(done, fingerprint);
        forall t | 0 <= t < |prev| ensures fingerprint(prev[t]) != fingerprint(item.link) {
          assert fingerprint(prev[t]) in LinkPrints(prev, fingerprint);
        }
      } else {
        assert FetchedLinks(items, fingerprint) == FetchedLinks(done, fingerprint);
        assert Fingerprints(items, fingerprint) == Fingerprints(done, fingerprint) + {fingerprint(item.link)};
        assert Fingerprints(items, fingerprint) == Fingerprints(done, fingerprint);
      }
    }
  }

  /** No link is ever fetched twice. */
  lemma FetchedDistinct(items: seq<Item>, fingerprint: Fingerprint)
    ensures var fetched := FetchedLinks(items, fingerprint);
      forall t, u :: 0 <= t < u < |fetched| ==> fetched[t] != fetched[u]
  {
    FetchedOnce(items, fingerprint);
  }

  /** With an injective fingerprint the set test is exactly "this link has not
      been seen": every distinct link with a long enough body is stored. */
  lemma SelectedWithInjectiveFingerprint(items: seq<Item>, i: nat, fetch: Fetch, fingerprint: Fingerprint)
    requires forall a, b :: fingerprint(a) == fingerprint(b) ==> a == b
    requires i < |items|
    ensures Selected(items, i, fetch, fingerprint) <==>
              (forall j :: 0 <= j < i ==> items[j].link != items[i].link)
              && Acceptable(fetch(items[i].link))
  {
  }

  /** Without injectivity a new link can be skipped: under a fingerprint that
      maps every link to the same text, only the first link is ever fetched. */
  lemma CollisionSkipsLink(a: Item, b: Item)
    requires a.link != b.link
    ensures FetchedLinks([a, b], (link: string) => "") == [a.link]
  {
    var same: Fingerprint := (link: string) => "";
    assert [a, b][..1] == [a];
    assert [a][..0] == [];
    assert FetchedLinks([a], same) == [a.link];
    assert !FirstSighting([a, b], 1, same);
  }

  /** The length filter: `None`, an empty body and a body of 299 characters are
      dropped; a body of 300 characters is kept. */
  lemma LengthThreshold()
    ensures !Acceptable(None) && !Acceptable(Some(""))
    ensures !Acceptable(Some(seq(299, _ => 'x'))) && Acceptable(Some(seq(300, _ => 'x')))
  {
  }

  // ---------------------------------------------------------------------------
  // collect_relevant_stock_news_kr: the loop
  // ---------------------------------------------------------------------------

  /** Visiting one more item: its fingerprint joins the set, and its link is
      fetched when the fingerprint was not yet in the set. */
  lemma VisitStep(done: seq<Item>, item: Item, fingerprint: Fingerprint)
    ensures Fingerprints(done + [item], fingerprint) == Fingerprints(done, fingerprint) + {fingerprint(item.link)}
    ensures FirstSighting(done + [item], |done|, fingerprint) <==> fingerprint(item.link) !in Fingerprints(done, fingerprint)
    ensures FetchedLinks(done + [item], fingerprint) ==
              FetchedLinks(done, fingerprint) + (if fingerprint(item.link) !in Fingerprints(done, fingerprint) then [item.link] else [])
  {
    FingerprintsSnoc(done, item, fingerprint);
    FirstSightingSnoc(done, item, fingerprint);
    assert (done + [item])[..|done|] == done;
  }

  lemma FingerprintsSnoc(done: seq<Item>, item: Item, fingerprint: Fingerprint)
    ensures Fingerprints(done + [item], fingerprint) == Fingerprints(done, fingerprint) + {fingerprint(item.link)}
  {
    var s := done + [item];
    forall x | x in Fingerprints(s, fingerprint) ensures x in Fingerprints(done, fingerprint) + {fingerprint(item.link)} {
      var k :| 0 <= k < |s| && x == fingerprint(s[k].link);
      if k < |done| {
        assert s[k] == done[k];
      }
    }
    forall x | x in Fingerprints(done, fingerprint) ensures x in Fingerprints(s, fingerprint) {
      var k :| 0 <= k < |done| && x == fingerprint(done[k].link);
      assert s[k] == done[k];
    }
    assert s[|done|] == item;
  }

  lemma FirstSightingSnoc(done: seq<Item>, item: Item, fingerprint: Fingerprint)
    ensures FirstSighting(done + [item], |done|, fingerprint) <==> fingerprint(item.link) !in Fingerprints(done, fingerprint)
  {
    var s := done + [item];
    assert s[|done|] == item;
    assert forall k :: 0 <= k < |done| ==> s[k] == done[k];
  }

  /** ... and it yields a record when, in addition, its body is long enough. */
  lemma KeepStep(done: seq<Item>, item: Item, fetch: Fetch, fingerprint: Fingerprint)
    ensures Kept(done + [item], fetch, fingerprint) ==
              Kept(done, fetch, fingerprint)
                + (if fingerprint(item.link) !in Fingerprints(done, fingerprint) && Acceptable(fetch(item.link))
                   then [ToArticle(item, fetch(item.link).value)] else [])
  {
    VisitStep(done, item, fingerprint);
    assert (done + [item])[..|done|] == done;
  }

  /** The items of one more keyword follow those already visited. */
  lemma VisitedItemsStep(keywords: seq<string>, i: nat, search: SearchApi)
    requires i < |keywords|
    ensures VisitedItems(keywords[..i + 1], search) ==
              VisitedItems(keywords[..i], search) + ResultItems(search(KeywordUrl(keywords[i])))
    ensures SearchUrls(keywords[..i + 1]) == SearchUrls(keywords[..i]) + [KeywordUrl(keywords[i])]
  {
    assert keywords[..i + 1][..i] == keywords[..i];
  }

  /** The items visited after one more turn of the inner loop. */
  lemma ExtendByOne(before: seq<Item>, items: seq<Item>, j: nat)
    requires j < |items|
    ensures before + items[..j + 1] == (before + items[..j]) + [items[j]]
  {
    assert items[..j + 1] == items[..j] + [items[j]];
  }

  /** The inner loop of the collector over the items of one search: for each
      item in page order, the fingerprint test, the mark, the fetch and the
      length filter. `before` is every item visited earlier. */
  method VisitPage(items: seq<Item>, ghost before: seq<Item>, transport: Transport, fingerprint: Fingerprint,
                   articles0: set<string>, newsData0: seq<Article>, fetched0: seq<string>)
    returns (articles: set<string>, newsData: seq<Article>, fetched: seq<string>)
    requires articles0 == Fingerprints(before, fingerprint)
    requires newsData0 == Kept(before, Fetcher(transport), fingerprint)
    requires fetched0 == FetchedLinks(before, fingerprint)
    ensures articles == Fingerprints(before + items, fingerprint)
    ensures newsData == Kept(before + items, Fetcher(transport), fingerprint)
    ensures fetched == FetchedLinks(before + items, fingerprint)
  {
    articles, newsData, fetched := articles0, newsData0, fetched0;
    assert before + items[..0] == before;
    for j := 0 to |items|
      invariant articles == Fingerprints(before + items[..j], fingerprint)
      invariant newsData == Kept(before + items[..j], Fetcher(transport), fingerprint)
      invariant fetched == FetchedLinks(before + items[..j], fingerprint)
    {
      var item := items[j];
      ghost var done := before + items[..j];
      ExtendByOne(before, items, j);
      VisitStep(done, item, fingerprint);
      KeepStep(done, item, Fetcher(transport), fingerprint);
      var link := item.link;
      if fingerprint(link) !in articles {
        articles := articles + {fingerprint(link)};
        fetched := fetched + [link];
        var content, _ := GetArticleContent(link, transport);
        assert Fetcher(transport)(link) == content;
        if content.None? || |content.value| < MinContentLength {
          continue;
        }
        newsData := newsData + [ToArticle(item, content.value)];
      }
    }
    assert items[..|items|] == items;
  }

  /** `collect_relevant_stock_news_kr()`: one search per keyword, in keyword
      order, then the items of each page in page order. Returns `news_data`,
      the searched URLs and the links whose bodies were fetched, each in
      request order. */
  method CollectRelevantStockNewsKr(search: SearchApi, transport: Transport, fingerprint: Fingerprint)
    returns (newsData: seq<Article>, searched: seq<string>, fetched: seq<string>)
    ensures searched == SearchUrls(StockPredictionKeywordsKr)
    ensures newsData == Kept(VisitedItems(StockPredictionKeywordsKr, search), Fetcher(transport), fingerprint)
    ensures fetched == FetchedLinks(VisitedItems(StockPredictionKeywordsKr, search), fingerprint)
  {
    var keywords := StockPredictionKeywordsKr;
    var articles: set<string> := {};
    newsData, searched, fetched := [], [], [];
    for i := 0 to |keywords|
      invariant searched == SearchUrls(keywords[..i])
      invariant articles == Fingerprints(VisitedItems(keywords[..i], search), fingerprint)
      invariant newsData == Kept(VisitedItems(keywords[..i], search), Fetcher(transport), fingerprint)
      invariant fetched == FetchedLinks(VisitedItems(keywords[..i], search), fingerprint)
    {
      var url := KeywordUrl(keywords[i]);
      searched := searched + [url];
      var items := ResultItems(search(url));
      VisitedItemsStep(keywords, i, search);
      articles, newsData, fetched :=
        VisitPage(items, VisitedItems(keywords[..i], search), transport, fingerprint, articles, newsData, fetched);
    }
    assert keywords[..|keywords|] == keywords;
  }
}
