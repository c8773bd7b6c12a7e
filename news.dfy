/** The paginated search collector of `news.py`: the search URL, the request
    that yields `None` on any failure, the record built from one post, and the
    page loop of `main` that numbers posts and advances `start`.

    The network is a parameter: `replies[k]` is what the k-th HTTP request of
    the run receives (the body already decoded from JSON); every request past
    the end of `replies` raises. */
module News {
  import opened Wrappers
  import opened Text
  import opened PercentEncoding
  import opened PubDate

  /** One search result item. */
  datatype Post = Post(title: string, description: string, originallink: string, link: string, pubDate: string)

  /** The decoded body of a search reply. */
  datatype Response = Response(start: int, display: int, total: int, items: seq<Post>)

  /** What `urlopen` does with a request: it raises, or answers with a status
      code and a body. */
  datatype HttpReply = Raised | Status(code: int, body: Response)

  /** One entry of `jsonResult`. */
  datatype Record = Record(cnt: nat, title: string, description: string, orgLink: string, link: string, pDate: string)

  /** `display` of every request `main` makes. */
  const PageSize: int := 100

  // ---------------------------------------------------------------------------
  // getNaverSearch and getRequestUrl
  // ---------------------------------------------------------------------------

  const Base: string := "https://openapi.naver.com/v1/search"

  /** `base + node`, up to the query text. */
  function SearchPrefix(node: string): string
  {
    Base + "/" + node + ".json" + "?query="
  }

  /** The parameters after the query text. */
  function StartAndDisplay(start: int, display: int): string
  {
    "start=" + IntToString(start) + "&display=" + IntToString(display)
  }

  /** The URL up to the paging parameters: `base + node` and the quoted text. */
  function QueryBase(node: string, srcText: string): string
  {
    SearchPrefix(node) + Quote(srcText)
  }

  /** A query URL with its paging parameters. */
  function PagedUrl(base: string, start: int, display: int): string
  {
    base + "&" + StartAndDisplay(start, display)
  }

  /** The URL `getNaverSearch(node, srcText, start, display)` requests. */
  function SearchUrl(node: string, srcText: string, start: int, display: int): string
  {
    PagedUrl(QueryBase(node, srcText), start, display)
  }

  lemma NoAmpersandInQuote(text: string)
    ensures '&' !in Quote(text)
  {
    QuoteAlphabet(text);
  }

  lemma LabelledNumber(key: string, i: int)
    requires '&' !in key
    ensures '&' !in key + IntToString(i)
  {
  }

  lemma LabelledNumberInjective(key: string, i: int, j: int)
    requires key + IntToString(i) == key + IntToString(j)
    ensures i == j
  {
    assert IntToString(i) == (key + IntToString(i))[|key|..];
    assert IntToString(j) == (key + IntToString(j))[|key|..];
    IntToStringInjective(i, j);
  }

  lemma StartAndDisplayInjective(start1: int, display1: int, start2: int, display2: int)
    requires StartAndDisplay(start1, display1) == StartAndDisplay(start2, display2)
    ensures start1 == start2 && display1 == display2
  {
    var s1, s2 := "start=" + IntToString(start1), "start=" + IntToString(start2);
    var d1, d2 := "display=" + IntToString(display1), "display=" + IntToString(display2);
    StartAndDisplayParts(start1, display1);
    StartAndDisplayParts(start2, display2);
    LabelledNumber("start=", start1);
    LabelledNumber("start=", start2);
    SplitAtFirst(s1, d1, s2, d2, '&');
    LabelledNumberInjective("start=", start1, start2);
    LabelledNumberInjective("display=", display1, display2);
  }

  lemma StartAndDisplayParts(start: int, display: int)
    ensures StartAndDisplay(start, display)
         == ("start=" + IntToString(start)) + ['&'] + ("display=" + IntToString(display))
  {
  }

  lemma PrefixedSplit(prefix: string, q1: string, rest1: string, q2: string, rest2: string)
    requires '&' !in q1 && '&' !in q2
    requires prefix + q1 + "&" + rest1 == prefix + q2 + "&" + rest2
    ensures q1 == q2 && rest1 == rest2
  {
    var t1, t2 := q1 + ['&'] + rest1, q2 + ['&'] + rest2;
    assert prefix + q1 + "&" + rest1 == prefix + t1;
    assert prefix + q2 + "&" + rest2 == prefix + t2;
    assert t1 == (prefix + t1)[|prefix|..];
    assert t2 == (prefix + t2)[|prefix|..];
    SplitAtFirst(q1, rest1, q2, rest2, '&');
  }

  /** Two requests for the same node share a URL only when they ask for the
      same text, the same start and the same page size: the query text is
      percent-encoded, so it cannot hide a parameter separator. */
  lemma SearchUrlInjective(node: string, text1: string, start1: int, display1: int,
                           text2: string, start2: int, display2: int)
    requires SearchUrl(node, text1, start1, display1) == SearchUrl(node, text2, start2, display2)
    ensures text1 == text2 && start1 == start2 && display1 == display2
  {
    NoAmpersandInQuote(text1);
    NoAmpersandInQuote(text2);
    PrefixedSplit(SearchPrefix(node), Quote(text1), StartAndDisplay(start1, display1),
                  Quote(text2), StartAndDisplay(start2, display2));
    QuoteInjective(text1, text2);
    StartAndDisplayInjective(start1, display1, start2, display2);
  }

  /** `getNaverSearch` after `getRequestUrl`: the decoded body on status 200,
      and `None` both when the request raised and when the status was anything
      else (the function then ends without a `return`). */
  function GetNaverSearch(reply: HttpReply): (r: Option<Response>)
    ensures r.Some? <==> reply.Status? && reply.code == 200
    ensures r.Some? ==> r.value == reply.body
  {
    match reply
    case Raised => None
    case Status(code, body) => if code == 200 then Some(body) else None
  }

  // ---------------------------------------------------------------------------
  // getPostData
  // ---------------------------------------------------------------------------

  /** The record `getPostData(post, jsonResult, cnt)` appends, or the error
      `strptime` raises on `post['pubDate']`. `post['link']` is read but the
      record stores `originallink` under both `org_link` and `link`. */
  function PostRecord(post: Post, cnt: nat): (r: Result<Record, DateError>)
    ensures r.Ok? <==> ParsePubDate(post.pubDate).Ok?
    ensures r.Err? ==> r.error == ParsePubDate(post.pubDate).error
    ensures r.Ok? ==> r.value.cnt == cnt && r.value.link == post.originallink && r.value.orgLink == post.originallink
    ensures r.Ok? ==> r.value.title == post.title && r.value.description == post.description
    ensures r.Ok? ==> |r.value.pDate| == 19 && ReformatDate(post.pubDate) == Ok(r.value.pDate)
  {
    var pDate :- ReformatDate(post.pubDate);
    Ok(Record(cnt, post.title, post.description, post.originallink, post.originallink, pDate))
  }

  /** A post dated as in the search API's documentation gets the date
      `2024-09-10 14:30:00`, and its `link` field is not what is stored. */
  lemma PostRecordExample()
    ensures var post := Post("t", "d", "https://press.example/1", "https://n.news.naver.com/1",
                             "Tue, 10 Sep 2024 14:30:00 +0900");
      PostRecord(post, 7) == Ok(Record(7, "t", "d", "https://press.example/1", "https://press.example/1",
                                       "2024-09-10 14:30:00"))
  {
    ReformatExample();
  }

  /** `jsonResult`, the list `getPostData` appends to. */
  class JsonResult {
    var entries: seq<Record>

    constructor()
      ensures entries == []
    {
      entries := [];
    }
  }

  /** `getPostData(post, jsonResult, cnt)`: appends exactly one record, or
      raises before appending anything. */
  method GetPostData(post: Post, jsonResult: JsonResult, cnt: nat) returns (failure: Option<DateError>)
    modifies jsonResult
    ensures failure.None? <==> PostRecord(post, cnt).Ok?
    ensures failure.None? ==> jsonResult.entries == old(jsonResult.entries) + [PostRecord(post, cnt).value]
    ensures failure.Some? ==> failure.value == PostRecord(post, cnt).error && unchanged(jsonResult)
  {
    var pDate := ReformatDate(post.pubDate);
    if pDate.Err? {
      return Some(pDate.error);
    }
    jsonResult.entries := jsonResult.entries
      + [Record(cnt, post.title, post.description, post.originallink, post.originallink, pDate.value)];
    failure := None;
  }

  // ---------------------------------------------------------------------------
  // main: the reference definition of the page loop
  // ---------------------------------------------------------------------------

  /** What the k-th request of the run returns. */
  function Answer(replies: seq<HttpReply>, k: nat): (r: Option<Response>)
    ensures r.Some? ==> k < |replies|
  {
    if k < |replies| then GetNaverSearch(replies[k]) else None
  }

  /** The responses the `while` loop works through, from request `k` on: it
      goes on while the answer is not `None` and its `display` is not 0. */
  function PagesFrom(replies: seq<HttpReply>, k: nat): seq<Response>
    decreases |replies| - k
  {
    match Answer(replies, k)
    case None => []
    case Some(response) => if response.display == 0 then [] else [response] + PagesFrom(replies, k + 1)
  }

  function Pages(replies: seq<HttpReply>): seq<Response>
  {
    PagesFrom(replies, 0)
  }

  /** The posts of some pages, page by page, in item order. */
  function Posts(pages: seq<Response>): seq<Post>
  {
    if pages == [] then [] else Posts(pages[..|pages| - 1]) + pages[|pages| - 1].items
  }

  /** The `start` of each request: 1 first, then the previous response's
      `start + display`. */
  function Starts(pages: seq<Response>): (r: seq<int>)
    ensures |r| == |pages| + 1 && r[0] == 1
    ensures forall k :: 0 <= k < |pages| ==> r[k + 1] == pages[k].start + pages[k].display
  {
    if pages == [] then [1]
    else Starts(pages[..|pages| - 1]) + [pages[|pages| - 1].start + pages[|pages| - 1].display]
  }

  /** The URLs of requests on `base` with the given `start`s: every one asks
      for 100 items. */
  function Urls(base: string, starts: seq<int>): (r: seq<string>)
    ensures |r| == |starts|
  {
    if starts == [] then []
    else Urls(base, starts[..|starts| - 1]) + [PagedUrl(base, starts[|starts| - 1], PageSize)]
  }

  /** Request `k` asks for the items from `starts[k]` on. */
  lemma {:induction false} UrlsAt(base: string, starts: seq<int>, k: nat)
    requires k < |starts|
    ensures Urls(base, starts)[k] == PagedUrl(base, starts[k], PageSize)
  {
    var m := |starts| - 1;
    var earlier, last := Urls(base, starts[..m]), PagedUrl(base, starts[m], PageSize);
    assert Urls(base, starts) == earlier + [last];
    if k < m {
      UrlsAt(base, starts[..m], k);
      assert starts[..m][k] == starts[k];
      assert (earlier + [last])[k] == earlier[k];
    } else {
      assert (earlier + [last])[k] == last;
    }
  }

  /** The URLs of the first `n` requests. */
  lemma {:induction false} UrlsPrefix(base: string, starts: seq<int>, n: nat)
    requires n <= |starts|
    ensures Urls(base, starts[..n]) == Urls(base, starts)[..n]
  {
    if n < |starts| {
      var m := |starts| - 1;
      assert starts[..m][..n] == starts[..n];
      UrlsPrefix(base, starts[..m], n);
    } else {
      assert starts[..n] == starts;
    }
  }

  /** The URLs the run requests after the given pages. */
  function RequestUrls(node: string, srcText: string, pages: seq<Response>): (r: seq<string>)
    ensures |r| == |pages| + 1
  {
    Urls(QueryBase(node, srcText), Starts(pages))
  }

  /** One turn of the `for post in jsonResponse['items']` loop on the list
      built so far: `cnt` is one more than the number of records already
      appended, and `getPostData` appends the post's record or raises. */
  function AppendRecord(acc: Result<seq<Record>, DateError>, post: Post): Result<seq<Record>, DateError>
  {
    match acc
    case Err(e) => Err(e)
    case Ok(records) =>
      match PostRecord(post, |records| + 1)
      case Err(e) => Err(e)
      case Ok(r) => Ok(records + [r])
  }

  /** The records of some posts numbered from 1, or the error `strptime`
      raises on the first post whose date does not parse. */
  function NumberedRecords(posts: seq<Post>): Result<seq<Record>, DateError>
  {
    if posts == [] then Ok([]) else AppendRecord(NumberedRecords(posts[..|posts| - 1]), posts[|posts| - 1])
  }

  lemma NumberedSnoc(posts: seq<Post>, post: Post)
    ensures NumberedRecords(posts + [post]) == AppendRecord(NumberedRecords(posts), post)
  {
    assert (posts + [post])[..|posts|] == posts;
  }

  // ---------------------------------------------------------------------------
  // main: the loop
  // ---------------------------------------------------------------------------

  /** How the run ends: the first request failed (`jsonResponse['total']` then
      raises a `TypeError`), the loop finished, or `strptime` raised. */
  datatype Outcome = NoFirstPage | Completed | BadDate(error: DateError)

  lemma {:induction false} PostsAppend(a: seq<Response>, b: seq<Response>)
    ensures Posts(a + b) == Posts(a) + Posts(b)
    decreases |b|
  {
    if b == [] {
      assert a + b == a;
    } else {
      var n := |b| - 1;
      assert (a + b)[..|a + b| - 1] == a + b[..n];
      assert (a + b)[|a + b| - 1] == b[n];
      PostsAppend(a, b[..n]);
      assert Posts(b) == Posts(b[..n]) + b[n].items;
    }
  }

  /** The posts up to the `m`-th item of a page are those of the earlier
      pages followed by the first `m` items of that page. */
  lemma PostsPrefix(pages: seq<Response>, done: seq<Response>, response: Response, rest: seq<Response>, n: nat)
    requires pages == done + [response] + rest
    requires |Posts(done)| <= n <= |Posts(done)| + |response.items|
    ensures n <= |Posts(pages)|
    ensures Posts(pages)[..n] == Posts(done) + response.items[..n - |Posts(done)|]
    ensures rest == [] ==> Posts(pages) == Posts(done) + response.items
  {
    PostsAppend(done + [response], rest);
    assert done + [response] + [] == done + [response];
    assert Posts(done + [response]) == Posts(done) + response.items by {
      assert (done + [response])[..|done|] == done;
    }
    assert response.items[..|response.items|] == response.items;
  }

  /** A page adds the `start` of the request for the items after it. */
  lemma StartsSnoc(done: seq<Response>, response: Response)
    ensures Starts(done + [response]) == Starts(done) + [response.start + response.display]
  {
    assert (done + [response])[..|done|] == done;
  }

  lemma StartsPrefix(a: seq<Response>, b: seq<Response>)
    ensures Starts(a) == Starts(a + b)[..|a| + 1]
  {
    var s := Starts(a + b);
    forall k | 0 <= k <= |a| ensures Starts(a)[k] == s[k] {
      if k > 0 {
        assert (a + b)[k - 1] == a[k - 1];
      }
    }
  }

  /** The pages of one step: request `k` answered a page that the loop works
      through. */
  lemma PagesStep(replies: seq<HttpReply>, done: seq<Response>, k: nat)
    requires Pages(replies) == done + PagesFrom(replies, k)
    requires Answer(replies, k).Some? && Answer(replies, k).value.display != 0
    ensures Pages(replies) == (done + [Answer(replies, k).value]) + PagesFrom(replies, k + 1)
  {
  }

  /** The `for post in jsonResponse['items']` loop of `main`: `cnt` goes up by
      one before each `getPostData`, which appends that post's record; the
      loop stops at the first date `strptime` rejects. `before` are the posts
      of the earlier pages. */
  method AddPosts(items: seq<Post>, jsonResult: JsonResult, cnt0: nat, ghost before: seq<Post>)
    returns (failure: Option<DateError>, cnt: nat)
    requires cnt0 == |jsonResult.entries| && NumberedRecords(before) == Ok(jsonResult.entries)
    modifies jsonResult
    ensures cnt == |jsonResult.entries| + (if failure.Some? then 1 else 0)
    ensures failure.None? ==> cnt == cnt0 + |items| && NumberedRecords(before + items) == Ok(jsonResult.entries)
    ensures failure.Some? ==>
              && cnt0 < cnt <= cnt0 + |items|
              && NumberedRecords(before + items[..cnt - cnt0 - 1]) == Ok(jsonResult.entries)
              && NumberedRecords(before + items[..cnt - cnt0]) == Err(failure.value)
  {
    cnt := cnt0;
    ghost var seen := before;
    TakeSnoc(before, items, 0);
    for j := 0 to |items|
      invariant cnt == cnt0 + j == |jsonResult.entries|
      invariant seen == before + items[..j]
      invariant NumberedRecords(seen) == Ok(jsonResult.entries)
    {
      failure, cnt := AddPost(items[j], jsonResult, cnt, seen);
      TakeSnoc(before, items, j + 1);
      seen := seen + [items[j]];
      if failure.Some? {
        assert cnt - cnt0 - 1 == j && cnt - cnt0 == j + 1;
        return;
      }
    }
    TakeSnoc(before, items, |items|);
    failure := None;
  }

  /** One turn of the `for` loop: `cnt += 1` and `getPostData(post, jsonResult, cnt)`. */
  method AddPost(post: Post, jsonResult: JsonResult, cnt0: nat, ghost seen: seq<Post>)
    returns (failure: Option<DateError>, cnt: nat)
    requires cnt0 == |jsonResult.entries| && NumberedRecords(seen) == Ok(jsonResult.entries)
    modifies jsonResult
    ensures cnt == cnt0 + 1
    ensures NumberedRecords(seen + [post]) == if failure.None? then Ok(jsonResult.entries) else Err(failure.value)
    ensures failure.Some? ==> unchanged(jsonResult)
  {
    ghost var records := jsonResult.entries;
    cnt := cnt0 + 1;
    failure := GetPostData(post, jsonResult, cnt);
    AddOne(seen, post, records, failure, jsonResult.entries);
  }

  /** The posts seen after one more turn of the loop. */
  lemma TakeSnoc(before: seq<Post>, items: seq<Post>, j: nat)
    requires j <= |items|
    ensures j == 0 ==> before + items[..j] == before
    ensures j == |items| ==> before + items[..j] == before + items
    ensures 0 < j ==> before + items[..j] == (before + items[..j - 1]) + [items[j - 1]]
  {
    if j == |items| {
      assert items[..j] == items;
    }
    if 0 < j {
      assert items[..j] == items[..j - 1] + [items[j - 1]];
    }
  }

  /** One turn of the loop of `AddPosts`, on the records before and after
      `getPostData`. */
  lemma AddOne(seen: seq<Post>, post: Post, records: seq<Record>, failure: Option<DateError>, entries: seq<Record>)
    requires NumberedRecords(seen) == Ok(records)
    requires failure.None? <==> PostRecord(post, |records| + 1).Ok?
    requires failure.None? ==> entries == records + [PostRecord(post, |records| + 1).value]
    requires failure.Some? ==> failure.value == PostRecord(post, |records| + 1).error && entries == records
    ensures NumberedRecords(seen + [post]) == if failure.None? then Ok(entries) else Err(failure.value)
  {
    NumberedSnoc(seen, post);
  }

  /** `main()`, without the input prompt, the prints and the file write:
      `srcText` is the text typed in. Returns how the run ended, `jsonResult`,
      the final `cnt` and the URLs requested, in order. */
  method CollectPosts(node: string, srcText: string, replies: seq<HttpReply>)
    returns (outcome: Outcome, records: seq<Record>, cnt: nat, requests: seq<string>)
    ensures outcome.NoFirstPage? <==> Answer(replies, 0).None?
    ensures outcome.NoFirstPage? ==> records == [] && cnt == 0 && requests == [SearchUrl(node, srcText, 1, PageSize)]
    ensures outcome.Completed? ==>
              && NumberedRecords(Posts(Pages(replies))) == Ok(records)
              && cnt == |Posts(Pages(replies))|
              && requests == RequestUrls(node, srcText, Pages(replies))
    ensures outcome.BadDate? ==>
              && 1 <= cnt <= |Posts(Pages(replies))|
              && NumberedRecords(Posts(Pages(replies))[..cnt - 1]) == Ok(records)
              && NumberedRecords(Posts(Pages(replies))[..cnt]) == Err(outcome.error)
              && 1 <= |requests| <= |Pages(replies)|
              && requests == RequestUrls(node, srcText, Pages(replies))[..|requests|]
              && |Posts(Pages(replies)[..|requests| - 1])| < cnt <= |Posts(Pages(replies)[..|requests|])|
  {
    var starts;
    outcome, records, cnt, starts := CollectPages(replies);
    requests := Urls(QueryBase(node, srcText), starts);
    if outcome.BadDate? {
      UrlsPrefix(QueryBase(node, srcText), Starts(Pages(replies)), |starts|);
    }
  }

  /** The loop of `main`, with the `start` of each request it makes, in order. */
  method CollectPages(replies: seq<HttpReply>)
    returns (outcome: Outcome, records: seq<Record>, cnt: nat, starts: seq<int>)
    ensures outcome.NoFirstPage? <==> Answer(replies, 0).None?
    ensures outcome.NoFirstPage? ==> records == [] && cnt == 0 && starts == [1]
    ensures outcome.Completed? ==>
              && NumberedRecords(Posts(Pages(replies))) == Ok(records)
              && cnt == |Posts(Pages(replies))|
              && starts == Starts(Pages(replies))
    ensures outcome.BadDate? ==>
              && 1 <= cnt <= |Posts(Pages(replies))|
              && NumberedRecords(Posts(Pages(replies))[..cnt - 1]) == Ok(records)
              && NumberedRecords(Posts(Pages(replies))[..cnt]) == Err(outcome.error)
              && 1 <= |starts| <= |Pages(replies)|
              && starts == Starts(Pages(replies))[..|starts|]
              && |Posts(Pages(replies)[..|starts| - 1])| < cnt <= |Posts(Pages(replies)[..|starts|])|
  {
    cnt := 0;
    var jsonResult := new JsonResult();
    starts := [1];
    var jsonResponse := Answer(replies, 0);
    if jsonResponse.None? {
      return NoFirstPage, [], 0, starts;
    }
    var k: nat := 0;
    ghost var done: seq<Response> := [];
    while jsonResponse.Some? && jsonResponse.value.display != 0
      invariant jsonResponse == Answer(replies, k) && |done| == k && Answer(replies, 0).Some?
      invariant Pages(replies) == done + PagesFrom(replies, k)
      invariant starts == Starts(done)
      invariant cnt == |Posts(done)| == |jsonResult.entries|
      invariant NumberedRecords(Posts(done)) == Ok(jsonResult.entries)
      decreases |replies| - k
    {
      var response := jsonResponse.value;
      var failure;
      failure, cnt := ProcessPage(replies, k, done, jsonResult, cnt);
      if failure.Some? {
        ghost var posts := Posts(Pages(replies));
        assert NumberedRecords(posts[..cnt - 1]) == Ok(jsonResult.entries);
        assert NumberedRecords(posts[..cnt]) == Err(failure.value);
        StartsAtFailure(replies, k, done, starts, cnt);
        return BadDate(failure.value), jsonResult.entries, cnt, starts;
      }
      starts := starts + [response.start + response.display];
      StartsSnoc(done, response);
      done := done + [response];
      k := k + 1;
      jsonResponse := Answer(replies, k);
    }
    LoopEnd(replies, done, k);
    outcome, records := Completed, jsonResult.entries;
  }

  /** The loop has worked through every page once the answer is `None` or has
      `display` 0. */
  lemma LoopEnd(replies: seq<HttpReply>, done: seq<Response>, k: nat)
    requires Pages(replies) == done + PagesFrom(replies, k)
    requires Answer(replies, k).None? || Answer(replies, k).value.display == 0
    ensures Pages(replies) == done
  {
    assert PagesFrom(replies, k) == [];
    assert done + [] == done;
  }

  /** The requests made before page `k` is worked through are the first ones
      of the run. */
  lemma StartsSoFar(replies: seq<HttpReply>, k: nat, done: seq<Response>)
    requires Pages(replies) == done + PagesFrom(replies, k)
    requires Answer(replies, k).Some? && Answer(replies, k).value.display != 0
    ensures 1 <= |Starts(done)| <= |Pages(replies)|
    ensures Starts(done) == Starts(Pages(replies))[..|done| + 1]
  {
    var response := Answer(replies, k).value;
    var rest := PagesFrom(replies, k + 1);
    assert Pages(replies) == done + ([response] + rest);
    StartsPrefix(done, [response] + rest);
  }

  /** The requests made when `strptime` raises on the page after `done`: the
      first ones of the run, the last of which asked for that page. */
  lemma StartsAtFailure(replies: seq<HttpReply>, k: nat, done: seq<Response>, starts: seq<int>, cnt: nat)
    requires Pages(replies) == done + PagesFrom(replies, k)
    requires Answer(replies, k).Some? && Answer(replies, k).value.display != 0
    requires starts == Starts(done)
    requires |Posts(Pages(replies)[..|done|])| < cnt <= |Posts(Pages(replies)[..|done| + 1])|
    ensures 1 <= |starts| <= |Pages(replies)|
    ensures starts == Starts(Pages(replies))[..|starts|]
    ensures |Posts(Pages(replies)[..|starts| - 1])| < cnt <= |Posts(Pages(replies)[..|starts|])|
  {
    StartsSoFar(replies, k, done);
  }

  /** One turn of the `while` loop of `main` on the answer to request `k`:
      every post of the page is numbered and recorded, and either `strptime`
      raises (the run then stands as `BadDateFacts` says) or the state is the
      loop's invariant one page further on. */
  method ProcessPage(replies: seq<HttpReply>, k: nat, ghost done: seq<Response>, jsonResult: JsonResult, cnt0: nat)
    returns (failure: Option<DateError>, cnt: nat)
    requires Answer(replies, k).Some? && Answer(replies, k).value.display != 0
    requires Pages(replies) == done + PagesFrom(replies, k)
    requires cnt0 == |Posts(done)| == |jsonResult.entries|
    requires NumberedRecords(Posts(done)) == Ok(jsonResult.entries)
    modifies jsonResult
    ensures failure.Some? ==>
              && |Posts(Pages(replies)[..|done|])| < cnt <= |Posts(Pages(replies)[..|done| + 1])|
              && 1 <= cnt <= |Posts(Pages(replies))|
              && NumberedRecords(Posts(Pages(replies))[..cnt - 1]) == Ok(jsonResult.entries)
              && NumberedRecords(Posts(Pages(replies))[..cnt]) == Err(failure.value)
    ensures failure.None? ==>
              var response := Answer(replies, k).value;
              && Pages(replies) == (done + [response]) + PagesFrom(replies, k + 1)
              && cnt == |Posts(done + [response])| == |jsonResult.entries|
              && NumberedRecords(Posts(done + [response])) == Ok(jsonResult.entries)
  {
    var response := Answer(replies, k).value;
    PagesStep(replies, done, k);
    ghost var seen := Posts(done);
    failure, cnt := AddPosts(response.items, jsonResult, cnt0, seen);
    if failure.Some? {
      BadDateFacts(replies, k, done, response, cnt, jsonResult.entries, failure.value);
      return;
    }
    NextPageFacts(done, response, jsonResult.entries);
  }

  /** Where the run stands when `strptime` raises on a post of the page
      after `done`: the post count and the records so far, read against all
      the pages of the run. */
  lemma BadDateFacts(replies: seq<HttpReply>, k: nat, done: seq<Response>, response: Response,
                     cnt: nat, records: seq<Record>, error: DateError)
    requires Pages(replies) == (done + [response]) + PagesFrom(replies, k + 1)
    requires |Posts(done)| < cnt <= |Posts(done)| + |response.items|
    requires NumberedRecords(Posts(done) + response.items[..cnt - |Posts(done)| - 1]) == Ok(records)
    requires NumberedRecords(Posts(done) + response.items[..cnt - |Posts(done)|]) == Err(error)
    ensures 1 <= cnt <= |Posts(Pages(replies))|
    ensures NumberedRecords(Posts(Pages(replies))[..cnt - 1]) == Ok(records)
    ensures NumberedRecords(Posts(Pages(replies))[..cnt]) == Err(error)
    ensures |Posts(Pages(replies)[..|done|])| < cnt <= |Posts(Pages(replies)[..|done| + 1])|
  {
    BadDatePositions(replies, k, done, response, cnt);
    var pages := Pages(replies);
    assert pages[..|done|] == done;
    assert pages[..|done| + 1] == done + [response];
    assert (done + [response])[..|done|] == done;
  }

  /** The posts before and up to the `cnt`-th one, read against all the
      pages of the run. */
  lemma BadDatePositions(replies: seq<HttpReply>, k: nat, done: seq<Response>, response: Response, cnt: nat)
    requires Pages(replies) == (done + [response]) + PagesFrom(replies, k + 1)
    requires |Posts(done)| < cnt <= |Posts(done)| + |response.items|
    ensures 1 <= cnt <= |Posts(Pages(replies))|
    ensures Posts(Pages(replies))[..cnt - 1] == Posts(done) + response.items[..cnt - |Posts(done)| - 1]
    ensures Posts(Pages(replies))[..cnt] == Posts(done) + response.items[..cnt - |Posts(done)|]
  {
    var rest := PagesFrom(replies, k + 1);
    assert Pages(replies) == done + [response] + rest;
    PostsPrefix(Pages(replies), done, response, rest, cnt - 1);
    PostsPrefix(Pages(replies), done, response, rest, cnt);
  }

  /** Where the run stands after a page whose every date parsed. */
  lemma NextPageFacts(done: seq<Response>, response: Response, records: seq<Record>)
    requires NumberedRecords(Posts(done) + response.items) == Ok(records)
    ensures NumberedRecords(Posts(done + [response])) == Ok(records)
    ensures |Posts(done + [response])| == |Posts(done)| + |response.items|
  {
    PostsPrefix(done + [response], done, response, [], |Posts(done)|);
  }

  // ---------------------------------------------------------------------------
  // main: what the reference definition guarantees
  // ---------------------------------------------------------------------------

  /** The loop works through exactly the answers before the first one that is
      `None` or has `display` 0: every page it processes is the answer to the
      request of the same position and has a non-zero `display`, and the answer
      after the last page is `None` or has `display` 0. */
  lemma {:induction false} PagesStop(replies: seq<HttpReply>, k: nat)
    ensures var pages := PagesFrom(replies, k);
      && (forall t :: 0 <= t < |pages| ==> Answer(replies, k + t) == Some(pages[t]) && pages[t].display != 0)
      && (Answer(replies, k + |pages|).None? || Answer(replies, k + |pages|).value.display == 0)
    decreases |replies| - k
  {
    match Answer(replies, k)
    case None =>
    case Some(response) =>
      if response.display != 0 {
        PagesStop(replies, k + 1);
        var rest := PagesFrom(replies, k + 1);
        assert PagesFrom(replies, k) == [response] + rest;
        forall t | 0 < t < 1 + |rest|
          ensures Answer(replies, k + t) == Some(([response] + rest)[t])
        {
          assert k + t == (k + 1) + (t - 1);
        }
      }
  }

  /** The list is built exactly when every date parses. */
  lemma NumberedRecordsDefined(posts: seq<Post>)
    ensures NumberedRecords(posts).Ok? <==> forall i :: 0 <= i < |posts| ==> ParsePubDate(posts[i].pubDate).Ok?
  {
    NumberedRecordsContent(posts);
    NumberedRecordsError(posts);
  }

  /** Posts are numbered 1, 2, ..., n in the order they are appended, with no
      gap and no repeat, and the record of each is the one `getPostData`
      builds for it under its number. */
  lemma {:induction false} NumberedRecordsContent(posts: seq<Post>)
    ensures NumberedRecords(posts).Ok? ==>
              var records := NumberedRecords(posts).value;
              && |records| == |posts|
              && forall i :: 0 <= i < |posts| ==> PostRecord(posts[i], i + 1) == Ok(records[i]) && records[i].cnt == i + 1
  {
    if posts != [] && NumberedRecords(posts).Ok? {
      var n := |posts| - 1;
      NumberedRecordsContent(posts[..n]);
      var prev := NumberedRecords(posts[..n]).value;
      var records := NumberedRecords(posts).value;
      assert records == prev + [PostRecord(posts[n], n + 1).value];
      forall i | 0 <= i < |posts|
        ensures PostRecord(posts[i], i + 1) == Ok(records[i]) && records[i].cnt == i + 1
      {
        if i < n {
          assert posts[..n][i] == posts[i];
        }
      }
    }
  }

  /** When a date does not parse, the error is that of the first post whose
      date does not. */
  lemma {:induction false} NumberedRecordsError(posts: seq<Post>)
    ensures NumberedRecords(posts).Err? ==>
              exists i :: 0 <= i < |posts| && ParsePubDate(posts[i].pubDate) == Err(NumberedRecords(posts).error)
                          && forall j :: 0 <= j < i ==> ParsePubDate(posts[j].pubDate).Ok?
  {
    if posts != [] {
      var n := |posts| - 1;
      NumberedRecordsError(posts[..n]);
      assert forall i :: 0 <= i < n ==> posts[..n][i] == posts[i];
      if NumberedRecords(posts[..n]).Ok? && NumberedRecords(posts).Err? {
        NumberedRecordsContent(posts[..n]);
        assert ParsePubDate(posts[n].pubDate) == Err(NumberedRecords(posts).error);
      }
    }
  }

  /** Each request after the first asks for the items after the previous
      response's last one, and all the run's requests are different as long as
      every page moves `start` forward. */
  lemma {:induction false} RequestsAdvance(node: string, srcText: string, pages: seq<Response>)
    requires forall k :: 0 <= k < |pages| ==> pages[k].display > 0
    requires forall k :: 0 < k < |pages| ==> pages[k].start == pages[k - 1].start + pages[k - 1].display
    requires pages != [] ==> pages[0].start == 1
    ensures forall k :: 0 <= k < |pages| ==> Starts(pages)[k] == pages[k].start
    ensures forall k, l :: 0 <= k < l <= |pages| ==> RequestUrls(node, srcText, pages)[k] != RequestUrls(node, srcText, pages)[l]
  {
    var starts := Starts(pages);
    forall k | 0 <= k < |pages| ensures starts[k] == pages[k].start {
      if k > 0 {
        assert starts[(k - 1) + 1] == pages[k - 1].start + pages[k - 1].display;
      }
    }
    assert forall k :: 0 <= k < |pages| ==> starts[k] < starts[k + 1];
    StartsIncreasing(starts, |pages|);
    forall k, l | 0 <= k < l <= |pages|
      ensures RequestUrls(node, srcText, pages)[k] != RequestUrls(node, srcText, pages)[l]
    {
      UrlsAt(QueryBase(node, srcText), starts, k);
      UrlsAt(QueryBase(node, srcText), starts, l);
      if RequestUrls(node, srcText, pages)[k] == RequestUrls(node, srcText, pages)[l] {
        SearchUrlInjective(node, srcText, starts[k], PageSize, srcText, starts[l], PageSize);
      }
    }
  }

  lemma {:induction false} StartsIncreasing(starts: seq<int>, n: nat)
    requires n < |starts|
    requires forall k :: 0 <= k < n ==> starts[k] < starts[k + 1]
    ensures forall k, l :: 0 <= k < l <= n ==> starts[k] < starts[l]
  {
    if n > 0 {
      StartsIncreasing(starts, n - 1);
      forall k | 0 <= k < n ensures starts[k] < starts[n] {
        assert starts[n - 1] < starts[n];
      }
    }
  }

  /** A run whose first answer has `display` 0 ends at once with no records
      after one request. (A run whose first request fails is the
      `NoFirstPage` outcome of `CollectPosts`.) */
  lemma EmptyFirstPage(node: string, srcText: string, first: Response, rest: seq<HttpReply>)
    requires first.display == 0
    ensures Pages([Status(200, first)] + rest) == []
    ensures Posts(Pages([Status(200, first)] + rest)) == []
    ensures RequestUrls(node, srcText, Pages([Status(200, first)] + rest)) == [SearchUrl(node, srcText, 1, PageSize)]
  {
  }
}
