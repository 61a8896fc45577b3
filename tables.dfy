/** The five tables of the newsfeed service (users with their profile, school
    pages, school news, subscriptions and newsfeed rows), the status codes the
    services answer with, and the key and schema invariants of the store. */
module Tables {

  type UserId = int
  type PageId = int
  type NewsId = int
  /** A point in time, in seconds; the clock is always a parameter. */
  type Time = int

  datatype Option<+T> = None | Some(value: T)

  /** The HTTP statuses the services raise. */
  datatype Status = Unauthorized | Forbidden | NotFound | Conflict | Unprocessable {
    function Code(): (c: int)
      ensures 400 < c < 500
    {
      match this
      case Unauthorized => 401
      case Forbidden => 403
      case NotFound => 404
      case Conflict => 409
      case Unprocessable => 422
    }
  }

  datatype Result<+T> = Ok(value: T) | Err(status: Status)

  /** What a service call leaves behind: the store after its commit (the old
      store when it raised) and its answer. */
  datatype Step<+T> = Step(db: Db, result: Result<T>)

  datatype Role = Student | Admin

  /** The string stored in the role column and carried in tokens. */
  function RoleName(r: Role): (s: string)
    ensures 0 < |s| <= RoleWidth
  {
    match r
    case Student => "student"
    case Admin => "admin"
  }

  // Column widths of the schema.
  const UsernameWidth: int := 20
  const NameWidth: int := 10
  const RoleWidth: int := 10
  const LocationWidth: int := 20
  const SchoolNameWidth: int := 20
  const TitleWidth: int := 100
  const ContentWidth: int := 500

  /** tb_user_info: the profile that belongs to exactly one account. */
  datatype UserInfo = UserInfo(name: string, role: Role)

  /** tb_users; `password` holds the credential hash. */
  datatype User = User(userId: UserId, username: string, password: string, regDtm: Time, info: UserInfo)

  /** tb_school_pages; `userId` is the owning admin. */
  datatype SchoolPage = SchoolPage(pageId: PageId, userId: UserId, location: string, schoolName: string, regDtm: Time)

  /** tb_school_news; `userId` is the author, `isDel`/`delDtm` the soft delete. */
  datatype SchoolNews = SchoolNews(newsId: NewsId, pageId: PageId, userId: UserId, title: string, content: string,
                                   regDtm: Time, updDtm: Option<Time>, isDel: bool, delDtm: Option<Time>)

  /** tb_school_subscriptions; the primary key is (userId, pageId). */
  datatype SchoolSub = SchoolSub(userId: UserId, pageId: PageId, regDtm: Time)

  /** tb_user_newsfeed; the row is its own primary key (userId, newsId). */
  datatype UserNewsfeed = UserNewsfeed(userId: UserId, newsId: NewsId)

  /** The whole store. Each table is keyed by its primary key; the `next*`
      counters are the auto-increment values the next insert receives. */
  datatype Db = Db(users: map<UserId, User>, nextUserId: UserId,
                   pages: map<PageId, SchoolPage>, nextPageId: PageId,
                   news: map<NewsId, SchoolNews>, nextNewsId: NewsId,
                   subs: map<(UserId, PageId), SchoolSub>,
                   feed: set<UserNewsfeed>)

  /** The store before any request: every table empty, ids start at 1. */
  function EmptyDb(): (db: Db)
    ensures Valid(db)
  {
    Db(map[], 1, map[], 1, map[], 1, map[], {})
  }

  // ---- Invariants ----

  /** Every row sits under its own primary key, and auto-increment keys are
      positive and below the counter. */
  ghost predicate Keyed(db: Db) {
    && 1 <= db.nextUserId && 1 <= db.nextPageId && 1 <= db.nextNewsId
    && (forall k :: k in db.users ==> db.users[k].userId == k && 1 <= k < db.nextUserId)
    && (forall k :: k in db.pages ==> db.pages[k].pageId == k && 1 <= k < db.nextPageId)
    && (forall k :: k in db.news ==> db.news[k].newsId == k && 1 <= k < db.nextNewsId)
    && (forall k :: k in db.subs ==> db.subs[k].userId == k.0 && db.subs[k].pageId == k.1)
  }

  /** The unique constraint on tb_users.username. */
  ghost predicate UsernamesUnique(db: Db) {
    forall a, b :: a in db.users && b in db.users && db.users[a].username == db.users[b].username ==> a == b
  }

  /** Foreign keys that no operation of the core can break: news to page,
      subscription to page, feed row to news. */
  ghost predicate References(db: Db) {
    && (forall k :: k in db.news ==> db.news[k].pageId in db.pages)
    && (forall k :: k in db.subs ==> k.1 in db.pages)
    && (forall f :: f in db.feed ==> f.newsId in db.news)
  }

  /** A news item's author is the owner of its page. */
  ghost predicate AuthorsOwnPages(db: Db)
    requires References(db)
  {
    forall k :: k in db.news ==> db.news[k].userId == db.pages[db.news[k].pageId].userId
  }

  /** The soft-delete time is set exactly when the item is deleted. */
  ghost predicate DeletionStamped(db: Db) {
    forall k :: k in db.news ==> (db.news[k].isDel <==> db.news[k].delDtm.Some?)
  }

  /** Stored strings fit their columns. */
  ghost predicate Widths(db: Db) {
    && (forall k :: k in db.users ==>
          |db.users[k].username| <= UsernameWidth && |db.users[k].info.name| <= NameWidth)
    && (forall k :: k in db.pages ==>
          |db.pages[k].location| <= LocationWidth && |db.pages[k].schoolName| <= SchoolNameWidth)
    && (forall k :: k in db.news ==>
          |db.news[k].title| <= TitleWidth && |db.news[k].content| <= ContentWidth)
  }

  ghost predicate Valid(db: Db) {
    && Keyed(db)
    && UsernamesUnique(db)
    && References(db)
    && AuthorsOwnPages(db)
    && DeletionStamped(db)
    && Widths(db)
  }

  /** At most one subscription per (user, page): the composite primary key.
      (A feed row is its own key, so the feed set holds each pair once.) */
  lemma SubscriptionPerPair(db: Db, a: SchoolSub, b: SchoolSub)
    requires Keyed(db)
    requires a in db.subs.Values && b in db.subs.Values
    requires a.userId == b.userId && a.pageId == b.pageId
    ensures a == b
  {
    var ka :| ka in db.subs && db.subs[ka] == a;
    var kb :| kb in db.subs && db.subs[kb] == b;
    assert ka == (a.userId, a.pageId) && kb == (b.userId, b.pageId);
  }
}
