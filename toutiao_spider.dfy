/**
 * The per-item logic of the Toutiao hot-board scraper: one loosely typed
 * JSON item becomes an article record, or is skipped. An item is skipped
 * when it has no title or no cluster id, and when any step on it raises;
 * a built article is kept only when it validates.
 *
 * Fetching the board, the clock, logging and the spreadsheet output are
 * outside the model: the decoded response is a parameter of `GetArticles`.
 */
module HotBoard {
  import opened PyValue

  const ArticlePrefix: string := "https://www.toutiao.com/article/"
  const TrendingPrefix: string := "https://www.toutiao.com/trending/"
  /** The marker the article id follows in a board link. */
  const ArticleMarker: string := "/article/"
  const DefaultSource: string := "今日头条"
  const DefaultCategory: string := "未分类"

  /** What a Python step gives: a value, or an exception. */
  datatype Outcome<+T> = Returned(value: T) | Raised

  datatype Article = Article(
    title: Value,
    articleUrl: string,
    readCount: int,
    commentCount: int,
    likes: int,
    source: string,
    category: string,
    summary: Value)

  /** What the loop body makes of one item: `continue` on a missing title
      or cluster id, an exception (caught, so the item is dropped), or an
      article to validate. */
  datatype ItemOutcome = Skipped | Failed | Built(article: Article)

  // ----- the article link -------------------------------------------------------

  /** The link of an item whose stringified cluster id is `clusterId`. The
      `Url` member, when present, is tested with `in`, which raises for None,
      numbers and booleans; a list or dict holding "/article/" passes the
      test and then has no `split`, which raises too. */
  function ArticleUrl(item: seq<(string, Value)>, clusterId: string): Outcome<string> {
    var trending := Returned(TrendingPrefix + clusterId);
    match Lookup(item, "Url")
    case None => trending
    case Some(url) =>
      match url
      case Str(u) =>
        if Contains(u, ArticleMarker)
        then Returned(ArticlePrefix + BeforeFirst(LastPiece(u, ArticleMarker), '/'))
        else trending
      case List(xs) => if Str(ArticleMarker) in xs then Raised else trending
      case Dict(ms) => if HasKey(ms, ArticleMarker) then Raised else trending
      case _ => Raised
  }

  /** The link is never empty, and it is an article link exactly when the item
      has a string `Url` containing "/article/"; otherwise it is the trending
      link of the cluster id. */
  lemma ArticleUrlKinds(item: seq<(string, Value)>, clusterId: string)
    ensures ArticleUrl(item, clusterId).Returned? ==>
      var link := ArticleUrl(item, clusterId).value;
      && link != ""
      && (|link| >= |ArticlePrefix| && link[..|ArticlePrefix|] == ArticlePrefix <==>
           Lookup(item, "Url").Some? && Lookup(item, "Url").value.Str? &&
           Contains(Lookup(item, "Url").value.s, ArticleMarker))
      && (!(Lookup(item, "Url").Some? && Lookup(item, "Url").value.Str? &&
            Contains(Lookup(item, "Url").value.s, ArticleMarker)) ==>
           link == TrendingPrefix + clusterId)
  {
    if ArticleUrl(item, clusterId).Returned? {
      var link := ArticleUrl(item, clusterId).value;
      assert (TrendingPrefix + clusterId)[..|ArticlePrefix|][24] == 't';
      assert ArticlePrefix[24] == 'a';
      if Lookup(item, "Url").Some? && Lookup(item, "Url").value.Str? &&
         Contains(Lookup(item, "Url").value.s, ArticleMarker) {
        assert link[..|ArticlePrefix|] == ArticlePrefix;
      }
    }
  }

  /** A string `Url` containing "/article/" gives the article link of the id
      that begins the last piece of `split("/article/")`, cut at the next "/". */
  lemma ArticleUrlOfArticleLink(item: seq<(string, Value)>, clusterId: string, u: string)
    requires Lookup(item, "Url") == Some(Str(u))
    requires Contains(u, ArticleMarker)
    ensures exists before: string, piece: string, id: string ::
      && piece == LastPiece(u, ArticleMarker)
      && u == before + ArticleMarker + piece
      && !Contains(piece, ArticleMarker)
      && '/' !in id
      && |id| <= |piece| && piece[..|id|] == id && (|id| == |piece| || piece[|id|] == '/')
      && ArticleUrl(item, clusterId) == Returned(ArticlePrefix + id)
  {
    LastPieceFollowsSeparator(u, ArticleMarker);
    var piece := LastPiece(u, ArticleMarker);
    var before := u[..|u| - |piece| - |ArticleMarker|];
    var id := BeforeFirst(piece, '/');
    assert u == before + ArticleMarker + piece by {
      assert u[|u| - |piece| - |ArticleMarker|..|u| - |piece|] == ArticleMarker;
      assert u[|u| - |piece|..] == piece;
    }
    assert ArticleUrl(item, clusterId) == Returned(ArticlePrefix + id);
  }

  /** Any occurrence of "/article/" begins with a slash. */
  lemma MarkerNeedsSlash(s: string, j: nat)
    requires OccursAt(s, ArticleMarker, j)
    ensures s[j] == '/'
  {
    assert s[j] == s[j..j + |ArticleMarker|][0];
  }

  /** A text with no slash before the one after `id` holds no marker
      unless the part from that slash on does. */
  lemma NoMarkerInTail(id: string, rest: string)
    requires '/' !in id
    requires !Contains("/" + rest, ArticleMarker)
    ensures forall j: nat :: !OccursAt(id + "/" + rest, ArticleMarker, j)
  {
    var tail := id + "/" + rest;
    var m := |ArticleMarker|;
    ContainsIff("/" + rest, ArticleMarker);
    forall j: nat ensures !OccursAt(tail, ArticleMarker, j) {
      if OccursAt(tail, ArticleMarker, j) {
        MarkerNeedsSlash(tail, j);
        assert j >= |id|;
        assert ("/" + rest)[j - |id|..j - |id| + m] == tail[j..j + m];
        assert OccursAt("/" + rest, ArticleMarker, j - |id|);
      }
    }
  }

  /** An occurrence that begins inside `host` lies within host + "/article". */
  lemma NoMarkerInHost(host: string, tail: string, j: nat)
    requires !Contains(host + "/article", ArticleMarker)
    requires j < |host|
    ensures !OccursAt(host + ArticleMarker + tail, ArticleMarker, j)
  {
    var u := host + ArticleMarker + tail;
    var m := |ArticleMarker|;
    ContainsIff(host + "/article", ArticleMarker);
    if OccursAt(u, ArticleMarker, j) {
      assert (host + "/article")[j..j + m] == u[j..j + m];
      assert OccursAt(host + "/article", ArticleMarker, j);
    }
  }

  /** An occurrence that begins after the marker following `host` lies in `tail`. */
  lemma NoMarkerAfterHost(host: string, tail: string, j: nat)
    requires forall i: nat :: !OccursAt(tail, ArticleMarker, i)
    requires j >= |host| + |ArticleMarker|
    ensures !OccursAt(host + ArticleMarker + tail, ArticleMarker, j)
  {
    var u := host + ArticleMarker + tail;
    var m := |ArticleMarker|;
    if OccursAt(u, ArticleMarker, j) {
      assert u[j..j + m] == tail[j - |host| - m..j - |host|];
      assert OccursAt(tail, ArticleMarker, j - |host| - m);
    }
  }

  lemma BeforeSlash(id: string, rest: string)
    requires '/' !in id
    ensures BeforeFirst(id + "/" + rest, '/') == id
  {
    var tail := id + "/" + rest;
    var b := BeforeFirst(tail, '/');
    assert tail[..|id|] == id && tail[|id|] == '/';
    assert |b| == |id|;
  }

  /** Building a link from an id and extracting it again gives the id back:
      for a `Url` of the form host + "/article/" + id + "/" + rest, where
      nothing in host overlaps the marker and rest adds no marker, the
      article link is the one of `id`. */
  lemma ArticleIdRoundTrip(item: seq<(string, Value)>, clusterId: string,
                           host: string, id: string, rest: string)
    requires Lookup(item, "Url") == Some(Str(host + ArticleMarker + id + "/" + rest))
    requires !Contains(host + "/article", ArticleMarker)
    requires '/' !in id
    requires !Contains("/" + rest, ArticleMarker)
    ensures ArticleUrl(item, clusterId) == Returned(ArticlePrefix + id)
  {
    ExtractId(host, id, rest);
  }

  lemma ExtractId(host: string, id: string, rest: string)
    requires !Contains(host + "/article", ArticleMarker)
    requires '/' !in id
    requires !Contains("/" + rest, ArticleMarker)
    ensures var u := host + ArticleMarker + id + "/" + rest;
      Contains(u, ArticleMarker) && BeforeFirst(LastPiece(u, ArticleMarker), '/') == id
  {
    var tail := id + "/" + rest;
    var u := host + ArticleMarker + tail;
    assert u == host + ArticleMarker + id + "/" + rest;
    assert OccursAt(u, ArticleMarker, |host|) by {
      assert u[|host|..|host| + |ArticleMarker|] == ArticleMarker;
    }
    ContainsIff(u, ArticleMarker);
    NoMarkerInTail(id, rest);
    forall j: nat | j < |host| ensures !OccursAt(u, ArticleMarker, j) {
      NoMarkerInHost(host, tail, j);
    }
    forall j: nat | j >= |host| + |ArticleMarker| ensures !OccursAt(u, ArticleMarker, j) {
      NoMarkerAfterHost(host, tail, j);
    }
    LastPieceAfterOnly(u, ArticleMarker, |host|);
    assert u[|host| + |ArticleMarker|..] == tail;
    BeforeSlash(id, rest);
  }

  // ----- read count ---------------------------------------------------------------

  /** `int(hot_value)`, or 0 when it raises ValueError or TypeError. */
  function ReadCount(hot: Value): int {
    match ToInt(hot)
    case Some(n) => n
    case None => 0
  }

  /** `int(x)` of a float: truncation toward zero. */
  function TruncDiv(a: int, b: int): int
    requires b > 0
  {
    if a >= 0 then a / b else -((-a) / b)
  }

  /** `int(read_count * 0.01)`, in exact arithmetic. */
  function CommentCount(readCount: int): int {
    TruncDiv(readCount, 100)
  }

  /** `int(read_count * 0.05)`, in exact arithmetic. */
  function Likes(readCount: int): int {
    TruncDiv(readCount * 5, 100)
  }

  /** A hot value written as a number reads back as that number. */
  lemma ReadCountOfNumeral(n: int)
    ensures ReadCount(Str(IntToString(n))) == n
    ensures ReadCount(Int(n)) == n
  {
    ParseIntOfIntToString(n);
  }

  /** A hot value that is not a number reads as 0, and so do its comment and
      like counts. */
  lemma UnparsableHotValue(hot: Value)
    requires ToInt(hot) == None
    ensures ReadCount(hot) == 0 && CommentCount(ReadCount(hot)) == 0 && Likes(ReadCount(hot)) == 0
  {
  }

  // ----- source and category ----------------------------------------------------

  /** The loop `for c in candidates: if c: return str(c)`, with `default` when
      none is truthy. */
  function FirstTruthy(candidates: seq<Value>, default: string): (r: string)
    ensures (forall k :: 0 <= k < |candidates| ==> !Truthy(candidates[k])) ==> r == default
    ensures forall k :: 0 <= k < |candidates| && Truthy(candidates[k]) &&
                        (forall j :: 0 <= j < k ==> !Truthy(candidates[j])) ==>
                        r == ToStr(candidates[k])
  {
    FirstTruthyFrom(candidates, 0, default)
  }

  /** The same loop, resumed at index `i`. */
  function FirstTruthyFrom(candidates: seq<Value>, i: nat, default: string): (r: string)
    requires i <= |candidates|
    ensures (forall k :: i <= k < |candidates| ==> !Truthy(candidates[k])) ==> r == default
    ensures forall k :: i <= k < |candidates| && Truthy(candidates[k]) &&
                        (forall j :: i <= j < k ==> !Truthy(candidates[j])) ==>
                        r == ToStr(candidates[k])
    decreases |candidates| - i
  {
    if i == |candidates| then default
    else if Truthy(candidates[i]) then ToStr(candidates[i])
    else FirstTruthyFrom(candidates, i + 1, default)
  }

  /** The candidates for the source: `Media.Name` (only when `Media` is a
      dict), `Media`, `source`, `SourceName`, then the default. */
  function SourceCandidates(item: seq<(string, Value)>): seq<Value> {
    var media := GetOr(item, "Media", Null);
    [ if media.Dict? then GetOr(media.members, "Name", Null) else Null,
      media,
      GetOr(item, "source", Null),
      GetOr(item, "SourceName", Null),
      Str(DefaultSource) ]
  }

  /** `_get_source`. */
  function Source(item: seq<(string, Value)>): string {
    FirstTruthy(SourceCandidates(item), DefaultSource)
  }

  /** `item.get('InterestCategory', [None])[0]`: the first element of a list,
      the first character of a string; raises for an empty list or string
      (IndexError), a dict (KeyError) and anything else (TypeError). */
  function FirstInterest(item: seq<(string, Value)>): Outcome<Value> {
    match Lookup(item, "InterestCategory")
    case None => Returned(Null)
    case Some(v) =>
      match v
      case List(xs) => if xs == [] then Raised else Returned(xs[0])
      case Str(s) => if s == "" then Raised else Returned(Str([s[0]]))
      case _ => Raised
  }

  /** `_get_category`: `InterestCategory[0]`, `CategoryName`, `tag`, then the
      default. */
  function Category(item: seq<(string, Value)>): Outcome<string> {
    match FirstInterest(item)
    case Raised => Raised
    case Returned(first) =>
      Returned(FirstTruthy([first, GetOr(item, "CategoryName", Null), GetOr(item, "tag", Null),
                            Str(DefaultCategory)], DefaultCategory))
  }

  /** With a non-empty default the pick is never empty. */
  lemma {:induction false} FirstTruthyNonEmpty(candidates: seq<Value>, i: nat, default: string)
    requires i <= |candidates| && default != ""
    ensures FirstTruthyFrom(candidates, i, default) != ""
    decreases |candidates| - i
  {
    if i < |candidates| {
      if Truthy(candidates[i]) {
        TruthyToStrNonEmpty(candidates[i]);
      } else {
        FirstTruthyNonEmpty(candidates, i + 1, default);
      }
    }
  }

  /** The source is never empty. */
  lemma SourceNeverEmpty(item: seq<(string, Value)>)
    ensures Source(item) != ""
  {
    FirstTruthyNonEmpty(SourceCandidates(item), 0, DefaultSource);
  }

  /** The category is never empty, and it is missing only where
      `InterestCategory[0]` raises. */
  lemma CategoryNeverEmpty(item: seq<(string, Value)>)
    ensures Category(item).Returned? ==> Category(item).value != ""
    ensures Category(item).Raised? <==> FirstInterest(item).Raised?
  {
    if FirstInterest(item).Returned? {
      FirstTruthyNonEmpty([FirstInterest(item).value, GetOr(item, "CategoryName", Null),
                           GetOr(item, "tag", Null), Str(DefaultCategory)], 0, DefaultCategory);
    }
  }

  // ----- one item -------------------------------------------------------------------

  /** The title of an item: `item.get('Title', '')`. */
  function Title(item: seq<(string, Value)>): Value {
    GetOr(item, "Title", Str(""))
  }

  /** The cluster id of an item: `str(item.get('ClusterId', ''))`. */
  function ClusterId(item: seq<(string, Value)>): string {
    ToStr(GetOr(item, "ClusterId", Str("")))
  }

  /** The hot value of an item: `item.get('HotValue', '0')`. */
  function HotValue(item: seq<(string, Value)>): Value {
    GetOr(item, "HotValue", Str("0"))
  }

  /** The body of the loop in `get_articles` up to validation. An item that
      is not a dict has no `get`, which raises. */
  function BuildArticle(item: Value): ItemOutcome {
    if !item.Dict? then Failed
    else
      var ms := item.members;
      if !Truthy(Title(ms)) || ClusterId(ms) == "" then Skipped
      else
        match ArticleUrl(ms, ClusterId(ms))
        case Raised => Failed
        case Returned(link) =>
          var read := ReadCount(HotValue(ms));
          match Category(ms)
          case Raised => Failed
          case Returned(category) =>
            Built(Article(Title(ms), link, read, CommentCount(read), Likes(read),
                          Source(ms), category, GetOr(ms, "QueryWord", Str(""))))
  }

  /** `validate_article`. */
  predicate Validate(a: Article) {
    Truthy(a.title) && a.articleUrl != "" && a.readCount != 0
  }

  /** Whether the loop appends an article for this item, and which. */
  function Accept(item: Value): Option<Article> {
    match BuildArticle(item)
    case Built(a) => if Validate(a) then Some(a) else None
    case _ => None
  }

  /** The cluster id is empty exactly when `ClusterId` is missing or is the
      empty string; a null cluster id reads "None" and is kept. */
  lemma ClusterIdEmptyIff(item: seq<(string, Value)>)
    ensures ClusterId(item) == "" <==> Lookup(item, "ClusterId") in {None, Some(Str(""))}
  {
    ToStrEmptyIff(GetOr(item, "ClusterId", Str("")));
  }

  /** An item with no truthy title, or with an empty cluster id, is skipped. */
  lemma UntitledSkipped(item: Value)
    requires item.Dict?
    requires !Truthy(Title(item.members)) || Lookup(item.members, "ClusterId") in {None, Some(Str(""))}
    ensures BuildArticle(item) == Skipped
  {
    ClusterIdEmptyIff(item.members);
  }

  /** For a built article the title and link checks of validation always
      pass: it is kept exactly when its read count is not 0. */
  lemma BuiltValidIff(item: Value)
    requires BuildArticle(item).Built?
    ensures Validate(BuildArticle(item).article) <==> BuildArticle(item).article.readCount != 0
  {
    ArticleUrlKinds(item.members, ClusterId(item.members));
  }

  /** An article whose hot value does not parse is built with all counts 0
      and then rejected. */
  lemma UnparsableHotValueRejected(item: Value)
    requires BuildArticle(item).Built?
    requires ToInt(HotValue(item.members)) == None
    ensures var a := BuildArticle(item).article;
      a.readCount == 0 && a.commentCount == 0 && a.likes == 0 && !Validate(a)
    ensures Accept(item) == None
  {
  }

  /** What an accepted article carries: a truthy title, a Toutiao link, a
      non-zero read count, a non-empty source and category. */
  ghost predicate WellFormed(a: Article) {
    && Truthy(a.title)
    && ((|a.articleUrl| >= |ArticlePrefix| && a.articleUrl[..|ArticlePrefix|] == ArticlePrefix) ||
        (|a.articleUrl| >= |TrendingPrefix| && a.articleUrl[..|TrendingPrefix|] == TrendingPrefix))
    && a.readCount != 0
    && a.source != ""
    && a.category != ""
  }

  lemma AcceptedWellFormed(item: Value)
    requires Accept(item).Some?
    ensures WellFormed(Accept(item).value)
    ensures Validate(Accept(item).value)
  {
    var ms := item.members;
    var a := Accept(item).value;
    var link := ArticleUrl(ms, ClusterId(ms)).value;
    ArticleUrlKinds(ms, ClusterId(ms));
    if link[..|ArticlePrefix|] != ArticlePrefix {
      assert link == TrendingPrefix + ClusterId(ms);
      assert link[..|TrendingPrefix|] == TrendingPrefix;
    }
    SourceNeverEmpty(ms);
    CategoryNeverEmpty(ms);
  }

  // ----- the loop -------------------------------------------------------------------

  /** The articles the loop appends for `items`, in order. */
  function Accepted(items: seq<Value>): seq<Article> {
    if items == [] then []
    else Accepted(items[..|items| - 1]) + Emitted(items[|items| - 1])
  }

  /** What one item adds to `articles`: its article when it validates. */
  function Emitted(item: Value): seq<Article> {
    match Accept(item)
    case Some(a) => [a]
    case None => []
  }

  /** One more item handled: what it adds follows what the earlier ones
      added. */
  lemma AcceptedStep(items: seq<Value>, i: nat)
    requires i < |items|
    ensures Accepted(items[..i + 1]) == Accepted(items[..i]) + Emitted(items[i])
  {
    assert items[..i + 1][..i] == items[..i];
  }

  /** Every appended article validates and is well formed, and there is at
      most one per item. */
  lemma {:induction false} AcceptedAreValid(items: seq<Value>)
    ensures |Accepted(items)| <= |items|
    ensures forall a :: a in Accepted(items) ==> Validate(a) && WellFormed(a)
  {
    if items != [] {
      var last := items[|items| - 1];
      AcceptedAreValid(items[..|items| - 1]);
      if Accept(last).Some? {
        AcceptedWellFormed(last);
      }
    }
  }

  /** The articles of two runs of items are those of the first then those of
      the second: items are handled one at a time, in order. */
  lemma {:induction false} AcceptedAppend(xs: seq<Value>, ys: seq<Value>)
    ensures Accepted(xs + ys) == Accepted(xs) + Accepted(ys)
    decreases |ys|
  {
    if ys == [] {
      assert xs + ys == xs;
    } else {
      var init := ys[..|ys| - 1];
      assert (xs + ys)[..|xs + ys| - 1] == xs + init;
      AcceptedAppend(xs, init);
    }
  }

  /** What the loop iterates over: the `data` member of a truthy dict
      response, when it is truthy. A list gives its elements; a dict its keys
      and a string its characters (none of which is a dict, so each is
      dropped); anything else raises before the loop starts. None stands for
      a request that gave nothing. */
  function BoardItems(response: Option<Value>): seq<Value> {
    match response
    case None => []
    case Some(data) =>
      if !data.Dict? || !Truthy(data) then []
      else
        var articlesData := GetOr(data.members, "data", List([]));
        if !Truthy(articlesData) then []
        else
          match articlesData
          case List(xs) => xs
          case Dict(ms) => seq(|ms|, k requires 0 <= k < |ms| => Str(ms[k].0))
          case Str(s) => seq(|s|, k requires 0 <= k < |s| => Str([s[k]]))
          case _ => []
  }

  /** Only a list under `data` can yield articles. */
  lemma OnlyListsYieldArticles(response: Option<Value>)
    requires response.Some? && response.value.Dict?
    requires !GetOr(response.value.members, "data", List([])).List?
    ensures Accepted(BoardItems(response)) == []
  {
    var items := BoardItems(response);
    assert forall k :: 0 <= k < |items| ==> !items[k].Dict?;
    NoDictNoArticles(items);
  }

  lemma {:induction false} NoDictNoArticles(items: seq<Value>)
    requires forall k :: 0 <= k < |items| ==> !items[k].Dict?
    ensures Accepted(items) == []
  {
    if items != [] {
      NoDictNoArticles(items[..|items| - 1]);
    }
  }

  class Spider {
    var articles: seq<Article>

    constructor ()
      ensures articles == []
    {
      articles := [];
    }

    /** The body of the loop in `get_articles`: build the item's article and
        append it when it validates. */
    method HandleItem(item: Value)
      modifies this
      ensures articles == old(articles) + Emitted(item)
    {
      var outcome := BuildArticle(item);
      if outcome.Built? && Validate(outcome.article) {
        articles := articles + [outcome.article];
      }
    }

    /** `get_articles`: appends, in item order, every item's validated article;
        nothing already collected changes. */
    method GetArticles(response: Option<Value>)
      modifies this
      ensures articles == old(articles) + Accepted(BoardItems(response))
    {
      var items := BoardItems(response);
      var i := 0;
      while i < |items|
        invariant 0 <= i <= |items|
        invariant articles == old(articles) + Accepted(items[..i])
      {
        ghost var done := Accepted(items[..i]);
        HandleItem(items[i]);
        AcceptedStep(items, i);
        assert articles == old(articles) + (done + Emitted(items[i]));
        i := i + 1;
      }
      assert items[..|items|] == items;
    }
  }
}
