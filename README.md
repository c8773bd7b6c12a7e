# Stock news crawling, modelled in Dafny

The repository holds two Python scripts that collect Korean news articles
from the Naver search API.

* `news.py` asks for a search term. It then pages through the news search
  100 items at a time: `start` is 1 first, then the previous reply's
  `start + display`. It stops at the first reply that failed or has
  `display` 0. Every post is turned into a numbered record (`cnt` 1, 2, …)
  whose `pubDate` is rewritten from `Tue, 10 Sep 2024 14:30:00 +0900` to
  `2024-09-10 14:30:00`.
* `naver_news.py` searches once for each of six stock-market keywords. It
  keeps an MD5 fingerprint set of the links it has visited and downloads the
  body of every link not seen before, with up to three attempts. It keeps
  the articles whose body is at least 300 characters long.

The model is split into these modules:

* `Wrappers` (`wrappers.dfy`): `Option` and `Result`.
* `Text` (`text.dfy`): Python's `str.isspace`, `strip`, `join`, `str(int)`
  and the zero-padded fields of `strftime`.
* `PercentEncoding` (`percent.dfy`): `urllib.parse.quote` with its defaults.
  That is UTF-8 (RFC 3629), then percent-encoding (RFC 3986 section 2.1)
  of everything outside the unreserved set of RFC 3986 section 2.3 and `/`.
  It comes with a decoder, which proves that quoting loses nothing.
* `PubDate` (`pubdate.dfy`): `datetime.strptime(s, '%a, %d %b %Y %H:%M:%S +0900')`.
  - Parsing goes in two stages, as CPython's `_strptime` does. First a
    case-insensitive match of the format's regular expression. In it a space
    stands for a run of whitespace, the year takes exactly four digits, and
    day, hour, minute and second take one or two digits within their
    ranges. Then the calendar check that `datetime` makes.
  - Digits are the ASCII digits `0` to `9` (see "## Left out").
  - It is followed by `strftime('%Y-%m-%d %H:%M:%S')`.
  - A date written the way the API writes it is proved to read back exactly
    when it exists in the calendar. Such a date is rejected when it does not
    exist, whatever day name it carries.
* `News` (`news.dfy`): `news.py`.
  - `getRequestUrl` and `getNaverSearch` are one function on the outcome of
    the HTTP request.
  - `getPostData` is a method on the `JsonResult` list.
  - `main` is the method `CollectPosts`, over a sequence of replies. Its loop
    is `CollectPages`, `ProcessPage` and `AddPosts`, with invariants.
  - These methods are proved against a reference definition of the run:
    `Pages`, `Posts`, `NumberedRecords` and `Starts`/`RequestUrls`.
* `NaverNews` (`naver_news.dfy`): `naver_news.py`.
  - `get_article_content` is a method with the retry loop. It is proved
    against `ArticleContent`.
  - `collect_relevant_stock_news_kr` is a method with both loops. It is
    proved against `Kept` and `FetchedLinks`, which are folds over the items
    visited.
  - The lemmas about those folds say what ends up in `news_data`:
    - one record per first sighting with a long body, in item order;
    - distinct fingerprints, and no link fetched twice.

## Model

| member | source | states |
|---|---|---|
| News.GetNaverSearch | news.py:17-44 | the reply body is returned exactly when the request did not raise and the status is 200; a raised request and any other status both give `None` |
| News.SearchUrlInjective | news.py:33-38 | two search URLs for the same node are equal only when text, start and display are all equal (the quoted text cannot contain `&`) |
| News.PostRecord | news.py:47-58 | a record exists exactly when `pubDate` parses, otherwise the error is that of `strptime`; it carries `cnt`, title, description, `originallink` under both link keys, and the reformatted 19-character date |
| News.PostRecordExample | news.py:47-57 | the post of the API's example gets date `2024-09-10 14:30:00`, and its `link` field is not stored |
| News.JsonResult.constructor | news.py:65 | `jsonResult` starts empty |
| News.GetPostData | news.py:47-58 | appends exactly the post's record when the date parses; raises and leaves the list unchanged otherwise |
| News.AddPost | news.py:72-73 | `cnt` goes up by one and the list becomes the numbered records of the posts seen so far, or the error of this post's date |
| News.AddPosts | news.py:71-73 | after the `for` loop, `cnt` counts the posts and the list is the numbered records of all posts so far; on a bad date, `cnt` is the position of the first post whose date fails and the list holds the records before it |
| News.ProcessPage | news.py:70-76 | one turn of the `while` loop either stops at a bad date, with the count and records read against the whole run, or leaves the loop invariant one page further on |
| News.CollectPages | news.py:64-76 | the loop of `main`: no first page exactly when the first request fails; otherwise all posts of all pages are numbered 1..n, or the run stops at the first bad date; the `start` of every request is recorded, and on a bad date the last request is the one for the page holding post `cnt` |
| News.CollectPosts | news.py:61-76 | `main`: how the run ends, the records, the final `cnt` and the URLs requested, each equal to the reference definition of the run; on a bad date the requests are those of the run up to the page holding post `cnt` |
| News.Starts | news.py:67-76 | the first request asks from 1, and each later one from the previous reply's `start + display` |
| News.UrlsAt | news.py:67-76 | the k-th request asks for 100 items from the k-th start |
| News.StartsSoFar | news.py:75-76 | the requests made before a page are the first requests of the whole run |
| News.PagesStop | news.py:70 | the loop works through exactly the answers before the first one that is `None` or has `display` 0 |
| News.EmptyFirstPage | news.py:67-70 | a first reply with `display` 0 ends the run after one request with no posts |
| News.NumberedRecordsDefined | news.py:64-73 | the list is built exactly when every date parses |
| News.NumberedRecordsContent | news.py:64-73 | the records are numbered 1..n in post order with no gap or repeat, and each is the record `getPostData` builds for its post |
| News.NumberedRecordsError | news.py:71-73 | the error raised is that of the first post whose date does not parse |
| News.RequestsAdvance | news.py:67-76 | when every reply starts where the previous one ended and `display` is positive, the starts are the replies' own starts and no URL is requested twice |
| PubDate.ParsePubDate | news.py:53 | every date `strptime` returns exists in the calendar |
| PubDate.MatchFormat | news.py:53 | every captured field is within the range its directive admits |
| PubDate.ReformatDate | news.py:53-54 | the conversion succeeds exactly when the date parses, giving the 19-character ISO-style text (digits are ASCII only; see Left out) |
| PubDate.NameIndexSpec | news.py:53 | `%a`/`%b` recognise a name exactly when one is spelled there, ignoring case, and pick the first such name |
| PubDate.FourDigitsSpec | news.py:53 | `%Y` reads exactly four ASCII digits and gives their value |
| PubDate.MatchedEndsWithOffset | news.py:53 | every matched text ends with the literal `+0900` |
| PubDate.RejectsOtherOffsets | news.py:53 | a text not ending in `+0900` is a mismatch |
| PubDate.ParseFormatted | news.py:53 | a date in the API's layout is read back unchanged when it exists and rejected as out of range when it does not |
| PubDate.ReformatFormatted | news.py:53-54 | a date in the API's layout is converted to its ISO-style text |
| PubDate.IsoFormatFields | news.py:54 | every field can be read back from the ISO-style text at its fixed position |
| PubDate.DayNameIgnored | news.py:53 | for a date written in the API's layout, the day name never changes the result |
| PubDate.ReformatExample | news.py:53-54 | `Tue, 10 Sep 2024 14:30:00 +0900` becomes `2024-09-10 14:30:00` |
| PubDate.RejectsThirtyFirstSeptember | news.py:53 | 31 September is rejected as out of range |
| PubDate.RejectsLeapDayOfCommonYear | news.py:53 | 29 February 2023 is rejected |
| PubDate.AcceptsLeapDayOfLeapYear | news.py:53 | 29 February 2024 is accepted |
| PubDate.RejectsSecondSixty | news.py:53 | second 60 matches the pattern but is rejected |
| PubDate.RejectsYearZero | news.py:53 | year 0 is rejected |
| PubDate.RejectsUtcExample | news.py:53 | a date with offset `+0000` is a mismatch |
| PercentEncoding.Utf8RoundTrip | news.py:36 | UTF-8 decoding undoes the encoding |
| PercentEncoding.PercentRoundTrip | news.py:36 | percent-decoding undoes the quoting of the bytes |
| PercentEncoding.QuoteRoundTrip | news.py:36 | the quoted search text decodes back to the text |
| PercentEncoding.QuoteInjective | news.py:36 | distinct search texts quote differently |
| PercentEncoding.QuoteAlphabet | news.py:36 | quoted text holds only safe characters and `%`, never `&`, `=`, `?` or `#` |
| PercentEncoding.QuoteOfSafe | news.py:36 | text made only of safe characters is left unchanged |
| Text.IntToStringInjective | news.py:36 | distinct numbers are written differently in the URL |
| Text.NatToStringValue | news.py:36 | the decimal text of a number reads back as that number |
| Text.ZeroPadValue | news.py:54 | a zero-padded field reads back as its number |
| Text.TrimStartSpec | naver_news.py:46-47 | `lstrip` removes a prefix that is all whitespace, and all of it |
| Text.TrimEndSpec | naver_news.py:46-47 | `rstrip` removes a suffix that is all whitespace, and all of it |
| Text.StripSpec | naver_news.py:46-47 | the stripped text neither starts nor ends with whitespace, and is empty exactly when the text is all whitespace |
| Text.StripOfPadded | naver_news.py:46-47 | stripping whitespace around a trimmed core gives the core |
| Text.StripIdempotent | naver_news.py:47 | stripping twice is stripping once |
| Text.JoinAllSpace | naver_news.py:46 | joined with a space, the text is all whitespace exactly when every part is |
| Text.JoinOfTrimmed | naver_news.py:46 | parts that are trimmed join into a trimmed text |
| NaverNews.NewsUrlQuery | naver_news.py:28-29 | a query without `&` is read back from the request URL unchanged |
| NaverNews.SearchUrls | naver_news.py:59-61 | one search per keyword, in keyword order, with `start=1`, `display=100`, `sort=sim` |
| NaverNews.KeywordUrlsDistinct | naver_news.py:22-29 | the six keywords are searched under six different URLs |
| NaverNews.ArticleTextEmpty | naver_news.py:44-47 | the body is empty exactly when every paragraph is blank |
| NaverNews.ArticleTextOfNonBlank | naver_news.py:46-47 | with no blank paragraph, the outer `strip` changes nothing |
| NaverNews.ArticleContentSpec | naver_news.py:38-52 | one to three requests, all but the last raised; `None` exactly when all three raised, otherwise the text of the first page received, even an empty one |
| NaverNews.GetArticleContent | naver_news.py:38-52 | the retry loop returns `ArticleContent` after `AttemptCount` requests |
| NaverNews.RetryScenarios | naver_news.py:39-52 | a page that fails twice is read on the third attempt; one that always fails gives `None` after three |
| NaverNews.SelectedBelowSpec | naver_news.py:63-75 | the selected item positions, in increasing order, are exactly the selected ones |
| NaverNews.KeptSpec | naver_news.py:63-84 | `news_data` holds, in item order, one record per item whose fingerprint is not yet in the set (a new link when MD5 has no collision) and whose body is long enough, and nothing else; each record carries its item's fields and body |
| NaverNews.KeptContentLong | naver_news.py:73-84 | every stored body has at least 300 characters and is what the fetch returned for that link |
| NaverNews.KeptDistinct | naver_news.py:69-84 | no two stored records share a fingerprint or a link |
| NaverNews.VisitStep | naver_news.py:69-73 | visiting an item adds its fingerprint to the set, and fetches its link exactly when the fingerprint was not there yet |
| NaverNews.FetchedOnce | naver_news.py:69-73 | the fetched links have pairwise distinct fingerprints, which are exactly the fingerprints of the visited items, whatever each fetch returned |
| NaverNews.FetchedDistinct | naver_news.py:69-73 | no link is ever fetched twice |
| NaverNews.SelectedWithInjectiveFingerprint | naver_news.py:69-75 | with a collision-free fingerprint, an item is kept exactly when its link is new and its body long enough |
| NaverNews.CollisionSkipsLink | naver_news.py:69-73 | under a colliding fingerprint a new link is skipped without being fetched |
| NaverNews.LengthThreshold | naver_news.py:74-75 | `None`, an empty body and 299 characters are dropped; 300 characters are kept |
| NaverNews.VisitPage | naver_news.py:63-84 | the inner loop over one page's items leaves the fingerprint set, `news_data` and the fetched links equal to the reference folds over all items visited |
| NaverNews.CollectRelevantStockNewsKr | naver_news.py:55-84 | the searched URLs, `news_data` and the fetched links are those of the reference definition, over the items of the six searches in order |

## Left out

- HTTP is not modelled as I/O. `urlopen` (news.py) is an `HttpReply` per request. The search API (naver_news.py) is a function from URL to `items`. An article GET is a function from URL and attempt number to `Raised` or the page's paragraph texts.
- Request headers, the client id and secret, `load_dotenv`, `timeout`, `verify=False` and `response.encoding` are not modelled. They do not change what the scripts compute from a reply.
- HTML parsing is reduced to its result. `BeautifulSoup(...).find_all('p')` and `get_text()` become the list of paragraph texts a page yields.
- MD5 is a `Fingerprint` parameter. The model proves what holds for any fingerprint, and what holds when it has no collisions.
- JSON decoding and encoding, the output files, `print` and `input` are not modelled. `srcText` is a parameter.
- The `total` that `main` reads is not kept. It is only printed.
- A `KeyError` on a reply or post that lacks a field is not modelled. Replies and posts are records with every field present.
- The failure of `requests.get` or `response.json()` in `get_naver_news` is not modelled. That is an uncaught exception in the source. The search function is total, and a reply without `items` counts as empty, as `.get('items', [])` does.
- The first reply being `None` is the `NoFirstPage` outcome. In the source this is the `TypeError` raised when `main` reads `jsonResponse['total']`.
- News.CollectPosts: the run is bounded by the finite reply sequence. Every request past its end raises, so the model's loop always ends. The source loops until the API itself answers with an error or `display` 0.
- PubDate.ParsePubDate: the round trip is proved only for dates in the API's own layout. Other texts `strptime` accepts, such as runs of spaces, one-digit fields or other letter case, follow the definition but no lemma characterises them.
- PubDate.ParsePubDate: digits are the ASCII digits `0` to `9` only. In CPython `\d` and `int()` also accept other Unicode decimal digits, so `strptime` parses a fullwidth year such as `２０２４` where the model gives `Mismatch`.
- PubDate.ReformatDate: same ASCII-digit limit as `ParsePubDate`. The year is always written with four digits, as CPython 3.13 and later do; earlier versions on glibc write a year below 1000 without leading zeros.
- PubDate.FourDigitsSpec: covers four ASCII digits only, not the other Unicode decimal digits `%Y` accepts.
- PubDate.ParsePubDate: day and month names compare ignoring ASCII case only. Full Unicode case folding and non-English locales are not modelled.
- english_news.py is not part of this model.
