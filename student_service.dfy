/** The student services: subscribing to and unsubscribing from a school page,
    the three listings (my subscriptions, a page's news, the aggregate
    newsfeed), and the fan-out that turns the subscribers of a page into
    newsfeed rows for a new news item. */
module StudentService {
  import opened Tables
  import opened Ordering

  /** The ordering keys of the listings. */
  function SubTime(s: SchoolSub): int { s.regDtm }
  function NewsTime(n: SchoolNews): int { n.regDtm }

  /** A row held by its table under its own primary key. */
  ghost predicate StoredSub(subs: map<(UserId, PageId), SchoolSub>, s: SchoolSub) {
    (s.userId, s.pageId) in subs && subs[(s.userId, s.pageId)] == s
  }

  ghost predicate StoredNews(news: map<NewsId, SchoolNews>, n: SchoolNews) {
    n.newsId in news && news[n.newsId] == n
  }

  /** A listing answers 404 when it is empty. */
  function Listing<T>(rows: seq<T>): (r: Result<seq<T>>)
    ensures r.Err? <==> rows == []
    ensures r.Err? ==> r.status == NotFound
    ensures r.Ok? ==> r.value == rows
  {
    if rows == [] then Err(NotFound) else Ok(rows)
  }

  // ---- My subscriptions ----

  /** The pages below `bound` that `u` subscribes to, in increasing order. */
  function SubscribedPages(subs: map<(UserId, PageId), SchoolSub>, bound: PageId, u: UserId): (ps: seq<PageId>)
    ensures forall i :: 0 <= i < |ps| ==> (u, ps[i]) in subs
    ensures forall p :: 1 <= p < bound && (u, p) in subs ==> p in ps
    ensures forall i, j :: 0 <= i < j < |ps| ==> ps[i] < ps[j]
  {
    var mine := p => (u, p) in subs;
    var ps := KeysBetween(1, bound, mine);
    assert forall p :: 1 <= p < bound && (u, p) in subs ==> mine(p) && p in ps;
    assert forall i :: 0 <= i < |ps| ==> mine(ps[i]);
    ps
  }

  /** The subscription rows of `u`, in page order. */
  function SubRows(subs: map<(UserId, PageId), SchoolSub>, bound: PageId, u: UserId): (rows: seq<SchoolSub>)
  {
    var ps := SubscribedPages(subs, bound, u);
    seq(|ps|, i requires 0 <= i < |ps| => subs[(u, ps[i])])
  }

  /** search_my_school_sub_service: the caller's subscriptions, newest first,
      or 404 when there are none. */
  function SearchMySubs(db: Db, u: UserId): (r: Result<seq<SchoolSub>>)
    ensures r.Err? ==> r.status == NotFound
    ensures r.Ok? ==> r.value != [] && NonIncreasing(r.value, SubTime)
  {
    Listing(SortDesc(SubRows(db.subs, db.nextPageId, u), SubTime))
  }

  // ---- News listings ----

  /** The two news queries: the items of one page, and the items in one
      user's newsfeed rows. */
  datatype NewsFilter = PageNews(pageId: PageId) | FeedNews(userId: UserId)

  /** The rows a news query keeps; neither ever shows a deleted item. */
  predicate Shows(feed: set<UserNewsfeed>, f: NewsFilter, n: SchoolNews) {
    && !n.isDel
    && match f
       case PageNews(p) => n.pageId == p
       case FeedNews(u) => UserNewsfeed(u, n.newsId) in feed
  }

  /** The ids below `bound` of the rows the filter keeps, in increasing order. */
  function ShownIds(news: map<NewsId, SchoolNews>, bound: NewsId, feed: set<UserNewsfeed>, f: NewsFilter): (ids: seq<NewsId>)
    ensures forall i :: 0 <= i < |ids| ==> ids[i] in news && Shows(feed, f, news[ids[i]])
    ensures forall k :: 1 <= k < bound && k in news && Shows(feed, f, news[k]) ==> k in ids
    ensures forall i, j :: 0 <= i < j < |ids| ==> ids[i] < ids[j]
  {
    var kept := k => k in news && Shows(feed, f, news[k]);
    var ids := KeysBetween(1, bound, kept);
    assert forall k :: 1 <= k < bound && k in news && Shows(feed, f, news[k]) ==> kept(k) && k in ids;
    assert forall i :: 0 <= i < |ids| ==> kept(ids[i]);
    ids
  }

  function ShownRows(news: map<NewsId, SchoolNews>, bound: NewsId, feed: set<UserNewsfeed>, f: NewsFilter): (rows: seq<SchoolNews>)
  {
    var ids := ShownIds(news, bound, feed, f);
    seq(|ids|, i requires 0 <= i < |ids| => news[ids[i]])
  }

  /** The query, newest first. It reads only the news table, its key bound
      and the newsfeed rows: never the subscriptions. */
  function NewsQuery(news: map<NewsId, SchoolNews>, bound: NewsId, feed: set<UserNewsfeed>, f: NewsFilter): (r: seq<SchoolNews>)
    ensures NonIncreasing(r, NewsTime)
  {
    SortDesc(ShownRows(news, bound, feed, f), NewsTime)
  }

  /** search_school_news_service: 403 without a current subscription to the
      page; otherwise its items that are not deleted, newest first, or 404. */
  function SearchSchoolNews(db: Db, p: PageId, u: UserId): (r: Result<seq<SchoolNews>>)
    ensures r.Err? ==> r.status == Forbidden || r.status == NotFound
    ensures r.Ok? ==> r.value != [] && NonIncreasing(r.value, NewsTime)
  {
    if (u, p) !in db.subs then Err(Forbidden)
    else Listing(NewsQuery(db.news, db.nextNewsId, db.feed, PageNews(p)))
  }

  /** search_school_newsfeed_service: the items that are not deleted and have
      a newsfeed row for the caller, newest first, or 404. */
  function SearchNewsfeed(db: Db, u: UserId): (r: Result<seq<SchoolNews>>)
    ensures r.Err? ==> r.status == NotFound
    ensures r.Ok? ==> r.value != [] && NonIncreasing(r.value, NewsTime)
  {
    Listing(NewsQuery(db.news, db.nextNewsId, db.feed, FeedNews(u)))
  }

  // ---- Subscribing ----

  /** insert_school_sub_service: 404 for a missing page, checked before 409
      for an existing subscription; otherwise one new subscription row. */
  function Subscribe(db: Db, u: UserId, p: PageId, now: Time): (s: Step<SchoolSub>)
    ensures s.result.Err? ==> s.db == db
  {
    if p !in db.pages then Step(db, Err(NotFound))
    else if (u, p) in db.subs then Step(db, Err(Conflict))
    else
      var sub := SchoolSub(u, p, now);
      Step(db.(subs := db.subs[(u, p) := sub]), Ok(sub))
  }

  /** delete_school_sub_service: 404 without a subscription; otherwise that
      one row is deleted. */
  function Unsubscribe(db: Db, u: UserId, p: PageId): (s: Step<()>)
    ensures s.result.Err? ==> s.db == db
  {
    if (u, p) !in db.subs then Step(db, Err(NotFound))
    else Step(db.(subs := db.subs - {(u, p)}), Ok(()))
  }

  // ---- Fan-out ----

  /** The rows insert_user_newsfeed adds: one per current subscriber of `p`. */
  function FeedBatch(subs: map<(UserId, PageId), SchoolSub>, p: PageId, n: NewsId): (batch: set<UserNewsfeed>)
    ensures forall f :: f in batch <==> f.newsId == n && (f.userId, p) in subs
  {
    var batch := set k | k in subs && k.1 == p :: UserNewsfeed(k.0, n);
    assert forall f: UserNewsfeed :: f.newsId == n && (f.userId, p) in subs ==> f == UserNewsfeed((f.userId, p).0, n) && f in batch;
    batch
  }

  /** insert_user_newsfeed: nothing to do without subscribers; otherwise the
      whole batch is committed at once. The commit fails, and the feed is
      left as it was, when storage refuses it (`commitOk` false), when the
      item is not in the news table, or when a row of the batch is already
      present; the failure is logged and never reaches the caller. */
  function FanOut(db: Db, p: PageId, n: NewsId, commitOk: bool): (d: Db)
    ensures d == db.(feed := d.feed)
    ensures db.feed <= d.feed
  {
    var batch := FeedBatch(db.subs, p, n);
    if batch == {} then db
    else if !commitOk || n !in db.news || batch * db.feed != {} then db
    else db.(feed := db.feed + batch)
  }

  // ---- Properties of the listings ----

  /** The key columns as the listings rely on them. */
  ghost predicate KeyedSubs(subs: map<(UserId, PageId), SchoolSub>, pages: map<PageId, SchoolPage>, bound: PageId) {
    forall k :: k in subs ==> subs[k].userId == k.0 && subs[k].pageId == k.1 && k.1 in pages && 1 <= k.1 < bound
  }

  ghost predicate KeyedNews(news: map<NewsId, SchoolNews>, bound: NewsId) {
    forall k :: k in news ==> news[k].newsId == k && 1 <= k < bound
  }

  lemma SubRowsComplete(subs: map<(UserId, PageId), SchoolSub>, pages: map<PageId, SchoolPage>, bound: PageId, u: UserId, s: SchoolSub)
    requires KeyedSubs(subs, pages, bound)
    requires StoredSub(subs, s) && s.userId == u
    ensures s in SubRows(subs, bound, u)
  {
    var ps := SubscribedPages(subs, bound, u);
    assert s.pageId in ps;
    var i :| 0 <= i < |ps| && ps[i] == s.pageId;
    assert SubRows(subs, bound, u)[i] == s;
  }

  lemma SubRowsSound(subs: map<(UserId, PageId), SchoolSub>, pages: map<PageId, SchoolPage>, bound: PageId, u: UserId, i: int)
    requires KeyedSubs(subs, pages, bound)
    requires 0 <= i < |SubRows(subs, bound, u)|
    ensures var s := SubRows(subs, bound, u)[i];
            StoredSub(subs, s) && s.userId == u && s.pageId == SubscribedPages(subs, bound, u)[i]
  {
  }

  lemma SubRowsDistinct(subs: map<(UserId, PageId), SchoolSub>, pages: map<PageId, SchoolPage>, bound: PageId, u: UserId)
    requires KeyedSubs(subs, pages, bound)
    ensures Distinct(SubRows(subs, bound, u))
  {
    var rows := SubRows(subs, bound, u);
    forall i, j | 0 <= i < j < |rows| ensures rows[i] != rows[j] {
      SubRowsSound(subs, pages, bound, u, i);
      SubRowsSound(subs, pages, bound, u, j);
    }
  }

  /** The subscription listing is exactly the caller's rows, each once. */
  lemma MySubsExact(db: Db, u: UserId)
    requires Valid(db)
    ensures SearchMySubs(db, u).Err? <==> forall p :: (u, p) !in db.subs
    ensures SearchMySubs(db, u).Ok? ==>
              && Distinct(SearchMySubs(db, u).value)
              && forall s :: s in SearchMySubs(db, u).value <==> StoredSub(db.subs, s) && s.userId == u
  {
    assert KeyedSubs(db.subs, db.pages, db.nextPageId);
    var rows := SubRows(db.subs, db.nextPageId, u);
    SortDescSameElements(rows, SubTime);
    forall s ensures s in rows <==> StoredSub(db.subs, s) && s.userId == u {
      if StoredSub(db.subs, s) && s.userId == u {
        SubRowsComplete(db.subs, db.pages, db.nextPageId, u, s);
      }
      if s in rows {
        var i :| 0 <= i < |rows| && rows[i] == s;
        SubRowsSound(db.subs, db.pages, db.nextPageId, u, i);
      }
    }
    SubRowsDistinct(db.subs, db.pages, db.nextPageId, u);
    PermutationKeepsDistinct(rows, SortDesc(rows, SubTime));
    if !forall p :: (u, p) !in db.subs {
      var p :| (u, p) in db.subs;
      assert StoredSub(db.subs, db.subs[(u, p)]);
    }
  }

  lemma ShownRowsComplete(news: map<NewsId, SchoolNews>, bound: NewsId, feed: set<UserNewsfeed>, f: NewsFilter, n: SchoolNews)
    requires KeyedNews(news, bound)
    requires StoredNews(news, n) && Shows(feed, f, n)
    ensures n in ShownRows(news, bound, feed, f)
  {
    var ids := ShownIds(news, bound, feed, f);
    assert n.newsId in ids;
    var i :| 0 <= i < |ids| && ids[i] == n.newsId;
    assert ShownRows(news, bound, feed, f)[i] == n;
  }

  lemma ShownRowsSound(news: map<NewsId, SchoolNews>, bound: NewsId, feed: set<UserNewsfeed>, f: NewsFilter, i: int)
    requires KeyedNews(news, bound)
    requires 0 <= i < |ShownRows(news, bound, feed, f)|
    ensures var n := ShownRows(news, bound, feed, f)[i];
            StoredNews(news, n) && Shows(feed, f, n) && n.newsId == ShownIds(news, bound, feed, f)[i]
  {
  }

  lemma ShownRowsDistinct(news: map<NewsId, SchoolNews>, bound: NewsId, feed: set<UserNewsfeed>, f: NewsFilter)
    requires KeyedNews(news, bound)
    ensures Distinct(ShownRows(news, bound, feed, f))
  {
    var rows := ShownRows(news, bound, feed, f);
    forall i, j | 0 <= i < j < |rows| ensures rows[i] != rows[j] {
      ShownRowsSound(news, bound, feed, f, i);
      ShownRowsSound(news, bound, feed, f, j);
    }
  }

  /** A news query holds every stored row its filter keeps, and no other,
      each once. */
  lemma NewsQueryExact(news: map<NewsId, SchoolNews>, bound: NewsId, feed: set<UserNewsfeed>, f: NewsFilter)
    requires KeyedNews(news, bound)
    ensures forall n :: n in NewsQuery(news, bound, feed, f) <==> StoredNews(news, n) && Shows(feed, f, n)
    ensures Distinct(NewsQuery(news, bound, feed, f))
    ensures NewsQuery(news, bound, feed, f) == [] <==> forall k :: k in news ==> !Shows(feed, f, news[k])
  {
    var rows := ShownRows(news, bound, feed, f);
    SortDescSameElements(rows, NewsTime);
    forall n ensures n in rows <==> StoredNews(news, n) && Shows(feed, f, n) {
      if StoredNews(news, n) && Shows(feed, f, n) {
        ShownRowsComplete(news, bound, feed, f, n);
      }
      if n in rows {
        var i :| 0 <= i < |rows| && rows[i] == n;
        ShownRowsSound(news, bound, feed, f, i);
      }
    }
    ShownRowsDistinct(news, bound, feed, f);
    PermutationKeepsDistinct(rows, SortDesc(rows, NewsTime));
    if !forall k :: k in news ==> !Shows(feed, f, news[k]) {
      var k :| k in news && Shows(feed, f, news[k]);
      assert StoredNews(news, news[k]);
    }
  }

  /** The per-page listing: 403 exactly without a current subscription, 404
      exactly when the page has no item left, and otherwise exactly its
      items that are not deleted, each once. */
  lemma SchoolNewsExact(db: Db, p: PageId, u: UserId)
    requires Keyed(db)
    ensures SearchSchoolNews(db, p, u) == Err(Forbidden) <==> (u, p) !in db.subs
    ensures SearchSchoolNews(db, p, u) == Err(NotFound) <==>
              (u, p) in db.subs && forall k :: k in db.news ==> db.news[k].pageId != p || db.news[k].isDel
    ensures SearchSchoolNews(db, p, u).Ok? ==>
              && Distinct(SearchSchoolNews(db, p, u).value)
              && forall n :: n in SearchSchoolNews(db, p, u).value <==> StoredNews(db.news, n) && n.pageId == p && !n.isDel
  {
    assert KeyedNews(db.news, db.nextNewsId);
    NewsQueryExact(db.news, db.nextNewsId, db.feed, PageNews(p));
  }

  /** Without a subscription the per-page listing is 403, whatever newsfeed
      rows and items there are. */
  lemma SchoolNewsNeedsSubscription(db: Db, p: PageId, u: UserId, feed: set<UserNewsfeed>, news: map<NewsId, SchoolNews>)
    requires (u, p) !in db.subs
    ensures SearchSchoolNews(db.(feed := feed, news := news), p, u) == Err(Forbidden)
  {
  }

  /** The aggregate newsfeed: 404 exactly when no item that is not deleted
      has a row for the caller, and otherwise exactly those items, each once. */
  lemma NewsfeedExact(db: Db, u: UserId)
    requires Keyed(db)
    ensures SearchNewsfeed(db, u).Err? <==>
              forall k :: k in db.news ==> UserNewsfeed(u, k) !in db.feed || db.news[k].isDel
    ensures SearchNewsfeed(db, u).Ok? ==>
              && Distinct(SearchNewsfeed(db, u).value)
              && forall n :: n in SearchNewsfeed(db, u).value <==>
                   StoredNews(db.news, n) && UserNewsfeed(u, n.newsId) in db.feed && !n.isDel
  {
    assert KeyedNews(db.news, db.nextNewsId);
    NewsQueryExact(db.news, db.nextNewsId, db.feed, FeedNews(u));
  }

  /** The aggregate newsfeed never consults the subscriptions. */
  lemma NewsfeedIgnoresSubscriptions(db: Db, u: UserId, subs: map<(UserId, PageId), SchoolSub>)
    ensures SearchNewsfeed(db.(subs := subs), u) == SearchNewsfeed(db, u)
  {
  }

  // ---- Properties of subscribing ----

  /** The three outcomes of subscribing, with the page check first. */
  lemma SubscribeOutcome(db: Db, u: UserId, p: PageId, now: Time)
    ensures Subscribe(db, u, p, now).result == Err(NotFound) <==> p !in db.pages
    ensures Subscribe(db, u, p, now).result == Err(Conflict) <==> p in db.pages && (u, p) in db.subs
    ensures var s := Subscribe(db, u, p, now);
            s.result.Ok? ==>
              && (u, p) !in db.subs
              && s.result.value == SchoolSub(u, p, now)
              && s.db == db.(subs := s.db.subs)
              && s.db.subs.Keys == db.subs.Keys + {(u, p)}
              && s.db.subs[(u, p)] == s.result.value
              && forall k :: k in db.subs ==> s.db.subs[k] == db.subs[k]
  {
  }

  /** A second subscription to the same page is 409 and changes nothing. */
  lemma SubscribeTwice(db: Db, u: UserId, p: PageId, now: Time, later: Time)
    requires Subscribe(db, u, p, now).result.Ok?
    ensures var d := Subscribe(db, u, p, now).db;
            Subscribe(d, u, p, later) == Step(d, Err(Conflict))
  {
  }

  lemma SubscribeKeepsValid(db: Db, u: UserId, p: PageId, now: Time)
    requires Valid(db)
    ensures Valid(Subscribe(db, u, p, now).db)
  {
  }

  /** The two outcomes of unsubscribing: 404 exactly without a subscription;
      otherwise that pair alone is gone, the newsfeed rows stay, and a
      second unsubscribe is 404. */
  lemma UnsubscribeOutcome(db: Db, u: UserId, p: PageId)
    ensures Unsubscribe(db, u, p).result == Err(NotFound) <==> (u, p) !in db.subs
    ensures var s := Unsubscribe(db, u, p);
            s.result.Ok? ==>
              && s.db == db.(subs := s.db.subs)
              && s.db.subs.Keys == db.subs.Keys - {(u, p)}
              && (forall k :: k in s.db.subs ==> s.db.subs[k] == db.subs[k])
              && Unsubscribe(s.db, u, p) == Step(s.db, Err(NotFound))
  {
  }

  lemma UnsubscribeKeepsValid(db: Db, u: UserId, p: PageId)
    requires Valid(db)
    ensures Valid(Unsubscribe(db, u, p).db)
  {
  }

  /** Unsubscribing shrinks no one's aggregate newsfeed, and closes the
      page's own listing to the caller. */
  lemma UnsubscribeKeepsNewsfeed(db: Db, u: UserId, p: PageId, v: UserId)
    ensures SearchNewsfeed(Unsubscribe(db, u, p).db, v) == SearchNewsfeed(db, v)
    ensures SearchSchoolNews(Unsubscribe(db, u, p).db, p, u) == Err(Forbidden)
  {
    NewsfeedIgnoresSubscriptions(db, v, Unsubscribe(db, u, p).db.subs);
  }

  // ---- Properties of the fan-out ----

  /** The fan-out adds a row for exactly the page's current subscribers, or
      leaves the feed as it was: without subscribers, on a failed commit,
      for an item not in the table, or when a batch row already exists. */
  lemma FanOutOutcome(db: Db, p: PageId, n: NewsId, commitOk: bool)
    ensures (forall s :: (s, p) !in db.subs) ==> FanOut(db, p, n, commitOk) == db
    ensures !commitOk || n !in db.news ==> FanOut(db, p, n, commitOk) == db
    ensures (exists s :: (s, p) in db.subs && UserNewsfeed(s, n) in db.feed) ==> FanOut(db, p, n, commitOk) == db
    ensures commitOk && n in db.news && (forall s :: (s, p) in db.subs ==> UserNewsfeed(s, n) !in db.feed) ==>
              forall f :: f in FanOut(db, p, n, commitOk).feed <==>
                f in db.feed || (f.newsId == n && (f.userId, p) in db.subs)
  {
    var batch := FeedBatch(db.subs, p, n);
    if forall s :: (s, p) !in db.subs {
      assert batch == {};
    }
    if exists s :: (s, p) in db.subs && UserNewsfeed(s, n) in db.feed {
      var s :| (s, p) in db.subs && UserNewsfeed(s, n) in db.feed;
      assert UserNewsfeed(s, n) in batch * db.feed;
    }
    if commitOk && n in db.news && (forall s :: (s, p) in db.subs ==> UserNewsfeed(s, n) !in db.feed) {
      assert batch * db.feed == {};
    }
  }

  lemma FanOutKeepsValid(db: Db, p: PageId, n: NewsId, commitOk: bool)
    requires Valid(db)
    ensures Valid(FanOut(db, p, n, commitOk))
  {
    var d := FanOut(db, p, n, commitOk);
    var batch := FeedBatch(db.subs, p, n);
    if d != db {
      assert d.feed == db.feed + batch;
      assert forall f :: f in batch ==> f.newsId in db.news;
    }
  }
}
