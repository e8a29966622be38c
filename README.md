# Toutiao hot-board scraper: proxy pool and item normalisation

This project models, in Dafny, the two parts of the scraper that carry logic:

- **The proxy pool** (`proxy_pool.py`). It keeps a list of proxy records
  `{'http': 'http://<address>', 'https': 'http://<address>'}` and a table of
  failure counts keyed by each record's `str()` form. Adding and removing
  update the list in place. Marking a failure bumps the record's count, and
  once the count reaches `max_failed` (3) one occurrence of the record is
  evicted. `proxy_pool.dfy` holds the state both as a value (`Pool`, with the
  functions `Added`, `Removed`, `MarkedFailed` saying what each call does) and
  as the class `ProxyPool`, whose methods change its two fields and are proved
  to follow those functions. The lemmas state what the pool promises: exactly
  one record appended per add, removal of only the first occurrence, counts
  that rise by exactly one and never fall or reset, eviction at the third
  failure, and no growth except by adding.
- **Hot-board item normalisation** (`toutiao_spider.py`, the loop in
  `get_articles` and its helpers). Each JSON item of the board becomes an
  article record or is dropped. `toutiao_spider.dfy` defines the article link
  (`ArticleUrl`), the read count (`ReadCount`), the source and category
  (`Source`, `Category`, both first-truthy searches over a fixed list with a
  constant default), validation (`Validate`) and the whole item step
  (`BuildArticle`, `Accept`). The class `Spider` holds `articles`, and its
  method `GetArticles` runs the loop over the items and appends each accepted
  article.
- **Python semantics** (`py_value.dfy`). The items are loosely typed, so the
  Python builtins they go through are written out: truthiness, `str()`/`repr()`,
  `dict.get` and `in` on a dict decoded by `json.loads`, `int()` on strings,
  and `in`/`split` on strings.

Python behaviour the model keeps on purpose:

- An exception in the body of the loop drops only that item. The model's
  `Failed` outcome stands for it. Exceptions arise when the item is not a dict.
  They arise when `Url` is `null`, a number or a boolean, because `in` raises.
  They arise when `Url` is a list or dict that holds `"/article/"`, because it
  has no `split`. They arise when `InterestCategory` is an empty list, an
  empty string, a dict, a number or `null`, because `[0]` raises.
- A `null` `ClusterId` is stringified to `"None"`. That is not empty, so the
  item is kept and links to `/trending/None`.
- `split('/article/')[-1]` scans left to right and resumes after each match.
  When two occurrences overlap (`.../article/article/...`), the piece is not
  simply the text after the last occurrence. `LastPiece` follows `split`.
- `int()` accepts surrounding whitespace, a sign and `_` between digits.
  `int(True)` is 1.

## Model

| member | source | states |
|---|---|---|
| `Proxies.ForAddress` | proxy_pool.py:14-17 | the record `add_proxy(address)` builds: `http` and `https` both `"http://" + address` |
| `Proxies.AsDict` | proxy_pool.py:14-17 | a record as the two-key dict `{'http': ..., 'https': ...}`, keys in insertion order |
| `Proxies.Key` | proxy_pool.py:32 | `str(proxy)`, the key of the failure table: the repr of the record's dict |
| `Proxies.Count` | proxy_pool.py:33 | `failed_times.get(key, 0)` |
| `Proxies.Empty` | proxy_pool.py:7-10 | the state after `__init__`: no proxies, no counts |
| `Proxies.Added` | proxy_pool.py:12-17 | `add_proxy(address)`: the record for `address` appended to the list; counts unchanged |
| `Proxies.Removed` | proxy_pool.py:25-28 | `remove_proxy(proxy)`: the list becomes `RemoveFirst` of itself; counts unchanged |
| `Proxies.MarkedFailed` | proxy_pool.py:30-35 | `mark_failed(proxy)`: the count of `str(proxy)` becomes its old value (0 when absent) plus one; when the new count is at least 3, `Removed` follows |
| `Proxies.Apply` | proxy_pool.py:12-35 | one call on the pool; `get_proxy` leaves the state as it is |
| `Proxies.Run` | proxy_pool.py:12-35 | a sequence of calls applied in order |
| `Proxies.ProxyPool.constructor` | proxy_pool.py:7-10 | a new pool has no proxies and no failure counts |
| `Proxies.ProxyPool.AddProxy` | proxy_pool.py:12-17 | the new state is `Added` of the old one: one record appended, counts unchanged |
| `Proxies.AddedAppendsOne` | proxy_pool.py:12-17 | add grows the list by exactly one; the old entries are kept as a prefix, so duplicates stay; the new record's `http` and `https` are both `"http://" + address`; counts are unchanged |
| `Proxies.ProxyPool.GetProxy` | proxy_pool.py:19-23 | returns None exactly when the list is empty, otherwise some member of the list; the state is unchanged |
| `Proxies.ProxyPool.RemoveProxy` | proxy_pool.py:25-28 | the new state is `Removed` of the old one |
| `Proxies.RemoveFirst` | proxy_pool.py:27-28 | removing an absent record changes nothing; removing a present one shortens the list by exactly one |
| `Proxies.RemoveFirstMultiset` | proxy_pool.py:28 | `list.remove(x)` takes exactly one copy of `x` out of the list and leaves every other element's count alone |
| `Proxies.FirstIndex` | proxy_pool.py:28 | the index found holds the record and no earlier index does |
| `Proxies.RemoveFirstCutsFirst` | proxy_pool.py:28 | when the first occurrence is at `i`, the result is the list with index `i` cut out and the rest in order |
| `Proxies.RemovedCutsFirstOccurrence` | proxy_pool.py:25-28 | `remove_proxy` of a record not in the pool is a no-op; otherwise only the first occurrence goes, order kept, counts unchanged |
| `Proxies.ProxyPool.MarkFailed` | proxy_pool.py:30-35 | the new state is `MarkedFailed` of the old one |
| `Proxies.MarkedFailedBumpsOneCount` | proxy_pool.py:32-33 | the count of `str(proxy)` rises by exactly one, from 0 when absent; every other key's count is unchanged |
| `Proxies.MarkedFailedEvictsAtLimit` | proxy_pool.py:34-35 | while the new count is below 3 the list is unchanged; at 3 or more one occurrence of the record is removed |
| `Proxies.MarkedFailedAfterEviction` | proxy_pool.py:33-35 | marking a record no longer in the list (an evicted one) only bumps its count |
| `Proxies.ThirdFailureEvicts` | proxy_pool.py:30-35 | a record present once with no failures survives the first and second mark and is gone after the third, with count 3 |
| `Proxies.OnlyAddGrows` | proxy_pool.py:12-35 | no call but `add_proxy` lengthens the list; add lengthens it by one |
| `Proxies.RunLengthBound` | proxy_pool.py:12-35 | over any sequence of calls the list grows by at most the number of adds |
| `Proxies.CountsNeverDecrease` | proxy_pool.py:9-35 | over any sequence of calls no failure count decreases; counts are never reset, even after eviction |
| `Proxies.RunKeepsCountsPositive` | proxy_pool.py:33 | every recorded count stays at least 1 |
| `Proxies.KeyOfAddress` | proxy_pool.py:32 | the key of an added record is `{'http': 'http://a', 'https': 'http://a'}` |
| `Proxies.KeyOfAddressInjective` | proxy_pool.py:14-17 | records added from different addresses have different keys |
| `Proxies.MarkingIsolated` | proxy_pool.py:32-33 | marking one added record never changes the count of a record added from another address |
| `PyValue.Truthy` | toutiao_spider.py:107 | Python truthiness: `None`, `False`, `0`, `''`, `[]` and `{}` are false, everything else true |
| `PyValue.ToStr` | toutiao_spider.py:104 | `str(v)`: a string is itself, every other value its repr |
| `PyValue.IsSpace` | toutiao_spider.py:125 | the six ASCII whitespace characters `int()` strips: space and `\t` to `\r` |
| `PyValue.ToInt` | toutiao_spider.py:125 | `int(v)`: an int is itself, a boolean is 0 or 1, a string is parsed, and `None`, lists and dicts raise TypeError |
| `PyValue.Contains` | toutiao_spider.py:114 | `pat in s`: the search for the pattern finds a position |
| `PyValue.SplitStart` | toutiao_spider.py:115 | the left-to-right scan of `split`: at each occurrence of the separator a new piece begins after it, and the scan resumes there |
| `PyValue.LastPiece` | toutiao_spider.py:115 | `s.split(sep)[-1]`: the text from where the scan's last piece begins |
| `PyValue.DictReprOfTwo` | proxy_pool.py:32 | `str()` of a two-key dict is `{'k1': repr(v1), 'k2': repr(v2)}` |
| `PyValue.Lookup` | toutiao_spider.py:111-113 | `key in d` holds exactly when the lookup succeeds, and then the value is the last member with that key, as `json.loads` builds dicts |
| `PyValue.GetOr` | toutiao_spider.py:103-105 | `item.get(key, default)` is the default when the key is absent and the looked-up value otherwise |
| `PyValue.Repr` | toutiao_spider.py:104 | the `repr` of any value is non-empty |
| `PyValue.ToStrEmptyIff` | toutiao_spider.py:104-107 | `str(v)` is empty exactly when `v` is the empty string |
| `PyValue.ParseInt` | toutiao_spider.py:125 | `int(s)` succeeds only on a string holding some decimal digit |
| `PyValue.ParseIntOfIntToString` | toutiao_spider.py:125 | `int(str(n)) == n` for every integer |
| `PyValue.ParseIntKeepsLeadingSeparator` | toutiao_spider.py:125 | `int()` does not strip the separator characters U+001C to U+001F: one before the digits makes it raise |
| `PyValue.ParseIntKeepsTrailingSeparator` | toutiao_spider.py:125 | the same for a separator character after the digits |
| `PyValue.ParseIntNeedsDigit` | toutiao_spider.py:125-129 | a string without digits does not parse |
| `PyValue.StripLeft` | toutiao_spider.py:125 | leading whitespace, and only that, is removed |
| `PyValue.StripRight` | toutiao_spider.py:125 | trailing whitespace, and only that, is removed |
| `PyValue.FindFrom` | toutiao_spider.py:114 | the position found holds the pattern and no earlier one does; no position holds it when none is found |
| `PyValue.ContainsIff` | toutiao_spider.py:114 | `pat in s` exactly when the pattern occurs at some position |
| `PyValue.SplitStartNoneAfter` | toutiao_spider.py:115 | no occurrence of the separator begins inside the last piece of `split` |
| `PyValue.SplitStartAfterSeparator` | toutiao_spider.py:115 | the last piece of `split` begins at 0 or right after an occurrence of the separator |
| `PyValue.SplitStartSkipsTo` | toutiao_spider.py:115 | the split scan passes over positions holding no separator and resumes right after the next occurrence |
| `PyValue.SplitStartStays` | toutiao_spider.py:115 | with no separator left ahead, the piece being scanned is the last one |
| `PyValue.LastPieceFollowsSeparator` | toutiao_spider.py:115 | `s.split(sep)[-1]` is a suffix holding no separator; it is all of `s` when `s` holds none, otherwise it follows an occurrence |
| `PyValue.LastPieceAfterOnly` | toutiao_spider.py:115 | with a first occurrence at `p` and none starting after it ends, the last piece is what follows `p`, even when an occurrence overlaps |
| `PyValue.BeforeFirst` | toutiao_spider.py:115 | `s.split(c)[0]` is a prefix without `c`, ending at the first `c` or at the end |
| `HotBoard.Title` | toutiao_spider.py:103 | `item.get('Title', '')` |
| `HotBoard.ClusterId` | toutiao_spider.py:104 | `str(item.get('ClusterId', ''))` |
| `HotBoard.HotValue` | toutiao_spider.py:105 | `item.get('HotValue', '0')` |
| `HotBoard.ArticleUrl` | toutiao_spider.py:110-121 | the link: with a string `Url` holding `/article/`, the article prefix plus the last split piece cut at the next `/`; with no `Url`, or one without the marker, the trending link of the cluster id; raises where `in` or `split` would |
| `HotBoard.ReadCount` | toutiao_spider.py:124-131 | `int(hot_value)`, or 0 when `int()` raises ValueError or TypeError |
| `HotBoard.CommentCount` | toutiao_spider.py:126 | `int(read_count * 0.01)`: a hundredth of the read count, truncated toward zero |
| `HotBoard.Likes` | toutiao_spider.py:127 | `int(read_count * 0.05)`: five hundredths of the read count, truncated toward zero |
| `HotBoard.SourceCandidates` | toutiao_spider.py:159-165 | `Media.Name` when `Media` is a dict (else `None`), `Media`, `source`, `SourceName`, then the default source |
| `HotBoard.Source` | toutiao_spider.py:156-171 | `_get_source`: the first truthy candidate, stringified, or the default |
| `HotBoard.FirstInterest` | toutiao_spider.py:177 | `item.get('InterestCategory', [None])[0]`: the first element of a list or character of a string; raises for an empty list or string and for any other value |
| `HotBoard.Category` | toutiao_spider.py:173-187 | `_get_category`: raises when `InterestCategory[0]` does, otherwise the first truthy of it, `CategoryName`, `tag`, stringified, or the default |
| `HotBoard.BuildArticle` | toutiao_spider.py:102-143 | the loop body up to validation: a non-dict item raises; a falsy title or empty cluster id skips it; a raising link or category drops it; otherwise the article record |
| `HotBoard.Validate` | toutiao_spider.py:189-205 | `validate_article`: a truthy title, a non-empty link and a non-zero read count |
| `HotBoard.Accept` | toutiao_spider.py:145-146 | the item's article when it is built and validates, and nothing otherwise |
| `HotBoard.Emitted` | toutiao_spider.py:145-146 | what one item appends to `articles`: its accepted article, or nothing |
| `HotBoard.Accepted` | toutiao_spider.py:101-151 | what the loop appends for a run of items: what each item appends, in item order |
| `HotBoard.BoardItems` | toutiao_spider.py:88-101 | what the loop iterates over: nothing unless the response is a truthy dict whose `data` is truthy; then a list's elements, a dict's keys or a string's characters; anything else raises before the loop |
| `HotBoard.ArticleUrlKinds` | toutiao_spider.py:110-121 | the link is never empty; it starts with the article prefix exactly when `Url` is a string containing `/article/`; otherwise it is the trending link of the cluster id |
| `HotBoard.ArticleUrlOfArticleLink` | toutiao_spider.py:111-116 | for a string `Url` containing `/article/`, the link is the article prefix plus the id; the id is the text of `split('/article/')[-1]` up to its first `/`, and that piece follows an occurrence of the marker and holds none |
| `HotBoard.ArticleIdRoundTrip` | toutiao_spider.py:113-116 | a `Url` built as host + `/article/` + id + `/` + rest gives back the link of `id` |
| `HotBoard.ExtractId` | toutiao_spider.py:115 | on such a string the split-and-cut extraction returns `id` |
| `HotBoard.ReadCountOfNumeral` | toutiao_spider.py:124-125 | a hot value given as an integer or as its numeral reads as that integer |
| `HotBoard.UnparsableHotValue` | toutiao_spider.py:128-131 | a hot value `int()` rejects gives read, comment and like counts of 0 |
| `HotBoard.FirstTruthy` | toutiao_spider.py:167-171 | the result is `str()` of the first truthy candidate, or the default when none is truthy |
| `HotBoard.FirstTruthyNonEmpty` | toutiao_spider.py:183-187 | with a non-empty default the pick is never empty |
| `HotBoard.SourceNeverEmpty` | toutiao_spider.py:156-171 | `_get_source` never returns an empty string |
| `HotBoard.CategoryNeverEmpty` | toutiao_spider.py:173-187 | `_get_category` never returns an empty string; it raises exactly where `InterestCategory[0]` raises |
| `HotBoard.ClusterIdEmptyIff` | toutiao_spider.py:104 | the stringified cluster id is empty exactly when `ClusterId` is absent or `""` |
| `HotBoard.UntitledSkipped` | toutiao_spider.py:103-108 | an item with a falsy title or an absent or empty cluster id is skipped |
| `HotBoard.BuiltValidIff` | toutiao_spider.py:189-205 | for a built article validation reduces to `read_count != 0`, because title and link are already non-empty |
| `HotBoard.UnparsableHotValueRejected` | toutiao_spider.py:124-131 | an unparsable hot value yields an article with all counts 0, which validation rejects |
| `HotBoard.AcceptedWellFormed` | toutiao_spider.py:133-146 | an accepted article validates; it has a truthy title, a Toutiao article or trending link, a non-zero read count, and a non-empty source and category |
| `HotBoard.AcceptedAreValid` | toutiao_spider.py:145-146 | every appended article validates and is well formed; at most one is appended per item |
| `HotBoard.AcceptedAppend` | toutiao_spider.py:101-151 | items are handled one at a time in order: the articles of `xs + ys` are those of `xs` then those of `ys` |
| `HotBoard.OnlyListsYieldArticles` | toutiao_spider.py:96-101 | when `data` is not a list, no article is appended |
| `HotBoard.NoDictNoArticles` | toutiao_spider.py:101-104 | items that are not dicts yield nothing |
| `HotBoard.Spider.constructor` | toutiao_spider.py:23 | a new scraper has no articles |
| `HotBoard.Spider.HandleItem` | toutiao_spider.py:102-147 | one pass of the loop body: `articles` gains the item's article exactly when it is built and validates, and nothing else changes |
| `HotBoard.Spider.GetArticles` | toutiao_spider.py:86-151 | `articles` becomes the old list followed by the accepted articles of the board's items, in order; what was there is unchanged |

## Left out

- HTTP fetching, the retry with back-off in `make_request`, headers and cookies (toutiao_spider.py:39-84). These are network I/O. The decoded response is a parameter of `GetArticles`; `None` stands for a failed request.
- `wait_for_next_request` (toutiao_spider.py:51-57): wall-clock time and sleeping.
- `publish_time` (toutiao_spider.py:136): it is read from the clock, so the article record has no such field.
- `save_to_csv`, `setup_logging`, every logging call and `main`: file output and logging.
- The `days` argument of `get_articles`: the code never uses it.
- `HotBoard.CommentCount`, `HotBoard.Likes`: `int(read_count * 0.01)` and `int(read_count * 0.05)` are computed in exact arithmetic, truncated toward zero. Float rounding can differ by one near whole numbers, and the float overflow that read counts beyond about 1e308 would raise is not modelled.
- JSON floats are not a kind of `PyValue.Value`: a float hot value, which `int()` would truncate, is not modelled.
- `PyValue.Repr`: string escaping and Python's choice of quote character are not modelled. A dict with a repeated key prints every member, where Python prints the key once.
- `PyValue.ParseInt`: only ASCII whitespace and ASCII digits are accepted. Python's `int()` also accepts other Unicode whitespace and Unicode decimal digits.
- `PyValue.ParseInt`: From Python 3.11 on, `int()` raises ValueError on a numeral of more than 4300 digits (the default of `sys.get_int_max_str_digits()`); the model parses numerals of any length, so such a hot value reads as its number instead of 0. `PyValue.ParseIntOfIntToString` likewise holds here for every integer, where Python's `str()` itself raises past that limit.
- `Proxies.KeyOfAddress`: because `PyValue.Repr` does not escape, the key is not Python's for an address holding `'`, `\` or a non-printable character. Records whose fields differ only in where such a quote falls can then share one key, so marking one counts against the other, where in Python they have separate counts.
- `Proxies.ProxyPool.GetProxy`: `random.choice` is an unspecified choice, and the method promises membership only.
- `Proxies.ProxyPool.RemoveProxy`, `Proxies.ProxyPool.MarkFailed`: the argument is always a proxy record. Python would accept any dict.
- The generic `except Exception` handlers: the model says only that an exception inside the loop drops the item, and that a non-iterable `data` ends the call.
- The board game, its clock and its computer opponent: the files under `五子棋小游戏/` are not part of this model.
