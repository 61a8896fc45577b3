/** The store as the services see it through the database session: one
    object whose fields are the five tables and their auto-increment
    counters. Each service is a method that runs its guards, then updates
    the tables and commits at once, or raises and leaves them as they were.
    Each method is proved to move the store exactly as the transition of
    the same name in UserService, StudentService or AdminService does, and
    to keep the key and schema invariants. */
module Storage {
  import opened Tables
  import opened Auth
  import UserDto
  import AdminDto
  import UserService
  import StudentService
  import AdminService

  class Store {
    var users: map<UserId, User>
    var nextUserId: UserId
    var pages: map<PageId, SchoolPage>
    var nextPageId: PageId
    var news: map<NewsId, SchoolNews>
    var nextNewsId: NewsId
    var subs: map<(UserId, PageId), SchoolSub>
    var feed: set<UserNewsfeed>
    /** The password hash; nothing is assumed of it. */
    const hash: string -> string

    function Snapshot(): Db
      reads this
    {
      Db(users, nextUserId, pages, nextPageId, news, nextNewsId, subs, feed)
    }

    ghost predicate Valid()
      reads this
    {
      Tables.Valid(Snapshot())
    }

    /** A fresh store: every table empty. */
    constructor(hash: string -> string)
      ensures Snapshot() == EmptyDb() && this.hash == hash
      ensures Valid()
    {
      users, nextUserId := map[], 1;
      pages, nextPageId := map[], 1;
      news, nextNewsId := map[], 1;
      subs, feed := map[], {};
      this.hash := hash;
    }

    // ---- Accounts ----

    method SignUp(dto: UserDto.SignUp, now: Time) returns (r: Result<User>)
      requires Valid() && UserDto.ValidSignUp(dto)
      modifies this
      ensures Valid()
      ensures var s := UserService.SignUp(old(Snapshot()), hash, dto, now);
              Snapshot() == s.db && r == s.result
    {
      if UserService.FindUser(Snapshot(), dto.username).Some? {
        return Err(Conflict);
      }
      UserService.SignUpFresh(Snapshot(), hash, dto, now);
      var user := User(nextUserId, dto.username, hash(dto.password), now, UserInfo(dto.name, dto.role));
      ghost var d := Snapshot().(users := users[nextUserId := user], nextUserId := nextUserId + 1);
      users := users[user.userId := user];
      nextUserId := nextUserId + 1;
      r := Ok(user);
      assert Snapshot() == d;
    }

    /** Sign-in only reads the users table. */
    method SignIn(dto: UserDto.SignIn, now: Time) returns (r: Result<Token>)
      ensures r == UserService.SignIn(Snapshot(), hash, dto, now)
    {
      var found := UserService.FindUser(Snapshot(), dto.username);
      if found.None? {
        return Err(Unauthorized);
      }
      var user := users[found.value];
      if hash(dto.password) != user.password {
        return Err(Unauthorized);
      }
      return Ok(CreateAccessToken(user, now));
    }

    method DeleteUserByUsername(username: string)
      requires Valid()
      modifies this
      ensures Valid()
      ensures Snapshot() == UserService.DeleteUserByUsername(old(Snapshot()), username)
    {
      var found := UserService.FindUser(Snapshot(), username);
      if found.Some? {
        users := users - {found.value};
      }
      UserService.DeleteUserRemoves(old(Snapshot()), username);
    }

    // ---- Subscriptions and the newsfeed ----

    method Subscribe(u: UserId, p: PageId, now: Time) returns (r: Result<SchoolSub>)
      requires Valid()
      modifies this
      ensures Valid()
      ensures var s := StudentService.Subscribe(old(Snapshot()), u, p, now);
              Snapshot() == s.db && r == s.result
    {
      if p !in pages {
        return Err(NotFound);
      }
      if (u, p) in subs {
        return Err(Conflict);
      }
      var sub := SchoolSub(u, p, now);
      subs := subs[(u, p) := sub];
      r := Ok(sub);
      StudentService.SubscribeKeepsValid(old(Snapshot()), u, p, now);
    }

    method Unsubscribe(u: UserId, p: PageId) returns (r: Result<()>)
      requires Valid()
      modifies this
      ensures Valid()
      ensures var s := StudentService.Unsubscribe(old(Snapshot()), u, p);
              Snapshot() == s.db && r == s.result
    {
      if (u, p) !in subs {
        return Err(NotFound);
      }
      subs := subs - {(u, p)};
      r := Ok(());
      StudentService.UnsubscribeKeepsValid(old(Snapshot()), u, p);
    }

    /** insert_user_newsfeed: one batch for the page's current subscribers,
        committed once; a failed commit changes nothing and is not reported. */
    method FanOut(p: PageId, n: NewsId, commitOk: bool)
      requires Valid()
      modifies this
      ensures Valid()
      ensures Snapshot() == StudentService.FanOut(old(Snapshot()), p, n, commitOk)
    {
      var batch := StudentService.FeedBatch(subs, p, n);
      if batch != {} {
        if commitOk && n in news && batch * feed == {} {
          feed := feed + batch;
        }
      }
      StudentService.FanOutKeepsValid(old(Snapshot()), p, n, commitOk);
    }

    // ---- Pages and news ----

    method CreatePage(u: UserId, dto: AdminDto.PageInsert, now: Time) returns (r: Result<SchoolPage>)
      requires Valid() && AdminDto.ValidPageInsert(dto)
      modifies this
      ensures Valid()
      ensures var s := AdminService.CreatePage(old(Snapshot()), u, dto, now);
              Snapshot() == s.db && r == s.result
    {
      var page := SchoolPage(nextPageId, u, dto.location, dto.schoolName, now);
      pages := pages[page.pageId := page];
      nextPageId := nextPageId + 1;
      r := Ok(page);
      AdminService.CreatePageKeepsValid(old(Snapshot()), u, dto, now);
    }

    /** Commits the item, then hands (page, new id) to the fan-out, whose
        outcome does not change the answer. */
    method PublishNews(u: UserId, dto: AdminDto.NewsInsert, now: Time, fanOutOk: bool) returns (r: Result<SchoolNews>)
      requires Valid() && AdminDto.ValidNewsInsert(dto)
      modifies this
      ensures Valid()
      ensures var s := AdminService.PublishNews(old(Snapshot()), u, dto, now, fanOutOk);
              Snapshot() == s.db && r == s.result
    {
      if dto.pageId !in pages {
        return Err(NotFound);
      }
      if pages[dto.pageId].userId != u {
        return Err(Forbidden);
      }
      var item := SchoolNews(nextNewsId, dto.pageId, u, dto.title, dto.content, now, None, false, None);
      news := news[item.newsId := item];
      nextNewsId := nextNewsId + 1;
      r := Ok(item);
      AdminService.InsertNewsKeepsValid(old(Snapshot()), u, dto, now);
      FanOut(item.pageId, item.newsId, fanOutOk);
    }

    method DeleteNews(u: UserId, id: NewsId, now: Time) returns (r: Result<()>)
      requires Valid()
      modifies this
      ensures Valid()
      ensures var s := AdminService.DeleteNews(old(Snapshot()), u, id, now);
              Snapshot() == s.db && r == s.result
    {
      if id !in news || news[id].isDel {
        return Err(NotFound);
      }
      if news[id].userId != u {
        return Err(Forbidden);
      }
      news := news[id := news[id].(isDel := true, delDtm := Some(now))];
      r := Ok(());
      AdminService.DeleteKeepsValid(old(Snapshot()), u, id, now);
    }

    method UpdateNews(u: UserId, dto: AdminDto.NewsUpdate, now: Time) returns (r: Result<SchoolNews>)
      requires Valid() && AdminDto.ValidNewsUpdate(dto)
      modifies this
      ensures Valid()
      ensures var s := AdminService.UpdateNews(old(Snapshot()), u, dto, now);
              Snapshot() == s.db && r == s.result
    {
      if dto.newsId !in news || news[dto.newsId].isDel {
        return Err(NotFound);
      }
      if news[dto.newsId].userId != u {
        return Err(Forbidden);
      }
      var edited := news[dto.newsId].(title := dto.title, content := dto.content, updDtm := Some(now));
      news := news[dto.newsId := edited];
      r := Ok(edited);
      AdminService.UpdateKeepsValid(old(Snapshot()), u, dto, now);
    }
  }
}
