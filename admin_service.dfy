/** The admin services: registering a school page, publishing a news item to
    it (followed by the fan-out to its subscribers), and editing and
    soft-deleting an item. Publishing checks ownership of the page; editing
    and deleting check authorship of the item. */
module AdminService {
  import opened Tables
  import opened AdminDto
  import opened StudentService

  /** insert_school_page_service: always one new page, owned by the caller. */
  function CreatePage(db: Db, u: UserId, dto: PageInsert, now: Time): (s: Step<SchoolPage>)
    ensures s.result.Ok?
  {
    var page := SchoolPage(db.nextPageId, u, dto.location, dto.schoolName, now);
    Step(db.(pages := db.pages[page.pageId := page], nextPageId := db.nextPageId + 1), Ok(page))
  }

  /** The commit of insert_school_news_service: 404 for a missing page,
      checked before 403 for a page the caller does not own; otherwise one
      new item, not deleted, never edited. */
  function InsertNews(db: Db, u: UserId, dto: NewsInsert, now: Time): (s: Step<SchoolNews>)
    ensures s.result.Err? ==> s.db == db
  {
    if dto.pageId !in db.pages then Step(db, Err(NotFound))
    else if db.pages[dto.pageId].userId != u then Step(db, Err(Forbidden))
    else
      var item := SchoolNews(db.nextNewsId, dto.pageId, u, dto.title, dto.content, now, None, false, None);
      Step(db.(news := db.news[item.newsId := item], nextNewsId := db.nextNewsId + 1), Ok(item))
  }

  /** insert_school_news_service followed by its background task: once the
      item is committed, the fan-out runs for (page, new id); its outcome,
      `fanOutOk`, never reaches the answer. */
  function PublishNews(db: Db, u: UserId, dto: NewsInsert, now: Time, fanOutOk: bool): (s: Step<SchoolNews>)
    ensures s.result == InsertNews(db, u, dto, now).result
  {
    var s := InsertNews(db, u, dto, now);
    match s.result
    case Err(_) => s
    case Ok(item) => Step(FanOut(s.db, item.pageId, item.newsId, fanOutOk), s.result)
  }

  /** The guard shared by edit and delete: 404 for an item that is missing or
      already deleted, checked before 403 for an item by another author. */
  function AuthoredItem(db: Db, u: UserId, id: NewsId): (r: Result<SchoolNews>)
    ensures r.Ok? ==> id in db.news && db.news[id] == r.value
  {
    if id !in db.news || db.news[id].isDel then Err(NotFound)
    else if db.news[id].userId != u then Err(Forbidden)
    else Ok(db.news[id])
  }

  /** delete_school_news_service: the row stays, marked deleted at `now`. */
  function DeleteNews(db: Db, u: UserId, id: NewsId, now: Time): (s: Step<()>)
    ensures s.result.Err? ==> s.db == db
  {
    match AuthoredItem(db, u, id)
    case Err(e) => Step(db, Err(e))
    case Ok(item) => Step(db.(news := db.news[id := item.(isDel := true, delDtm := Some(now))]), Ok(()))
  }

  /** update_school_news_service: new title and content, edited at `now`. */
  function UpdateNews(db: Db, u: UserId, dto: NewsUpdate, now: Time): (s: Step<SchoolNews>)
    ensures s.result.Err? ==> s.db == db
  {
    match AuthoredItem(db, u, dto.newsId)
    case Err(e) => Step(db, Err(e))
    case Ok(item) =>
      var edited := item.(title := dto.title, content := dto.content, updDtm := Some(now));
      Step(db.(news := db.news[dto.newsId := edited]), Ok(edited))
  }

  // ---- Pages ----

  /** A new page has a fresh id, the caller as owner and the given names;
      nothing else changes. */
  lemma CreatePageAdds(db: Db, u: UserId, dto: PageInsert, now: Time)
    requires Valid(db)
    ensures var s := CreatePage(db, u, dto, now);
            var page := s.result.value;
            && page.pageId !in db.pages
            && page == SchoolPage(page.pageId, u, dto.location, dto.schoolName, now)
            && s.db == db.(pages := s.db.pages, nextPageId := s.db.nextPageId)
            && s.db.pages == db.pages[page.pageId := page]
  {
  }

  lemma CreatePageKeepsValid(db: Db, u: UserId, dto: PageInsert, now: Time)
    requires Valid(db) && ValidPageInsert(dto)
    ensures Valid(CreatePage(db, u, dto, now).db)
  {
  }

  // ---- Publishing ----

  /** The outcomes of publishing: 404 exactly for a missing page, 403 exactly
      for a page of another owner; otherwise a fresh item on that page, by
      the caller and so by the page's owner, not deleted and never edited. */
  lemma PublishOutcome(db: Db, u: UserId, dto: NewsInsert, now: Time, fanOutOk: bool)
    requires Valid(db)
    ensures PublishNews(db, u, dto, now, fanOutOk) == Step(db, Err(NotFound)) <==> dto.pageId !in db.pages
    ensures PublishNews(db, u, dto, now, fanOutOk) == Step(db, Err(Forbidden)) <==>
              dto.pageId in db.pages && db.pages[dto.pageId].userId != u
    ensures var s := PublishNews(db, u, dto, now, fanOutOk);
            s.result.Ok? ==>
              var item := s.result.value;
              && item.newsId !in db.news
              && item.pageId == dto.pageId && item.userId == u && u == db.pages[dto.pageId].userId
              && item.title == dto.title && item.content == dto.content && item.regDtm == now
              && !item.isDel && item.updDtm.None? && item.delDtm.None?
              && s.db.news == db.news[item.newsId := item]
              && s.db.pages == db.pages && s.db.subs == db.subs && s.db.users == db.users
  {
    var s := InsertNews(db, u, dto, now);
    if s.result.Ok? {
      FanOutOutcome(s.db, dto.pageId, s.result.value.newsId, fanOutOk);
    }
  }

  /** What publishing does to the newsfeed: with a successful fan-out each
      current subscriber of the page gets exactly one new row, the new item's;
      with a failed one the feed is unchanged. Either way the answer is the
      same. */
  lemma PublishFansOut(db: Db, u: UserId, dto: NewsInsert, now: Time, fanOutOk: bool)
    requires Valid(db)
    requires InsertNews(db, u, dto, now).result.Ok?
    ensures var s := PublishNews(db, u, dto, now, fanOutOk);
            var n := s.result.value.newsId;
            && (fanOutOk ==> forall f :: f in s.db.feed <==> f in db.feed || (f.newsId == n && (f.userId, dto.pageId) in db.subs))
            && (!fanOutOk ==> s.db.feed == db.feed)
            && s.result == PublishNews(db, u, dto, now, !fanOutOk).result
  {
    var s := InsertNews(db, u, dto, now);
    var n := s.result.value.newsId;
    assert forall f :: f in db.feed ==> f.newsId != n;
    FanOutOutcome(s.db, dto.pageId, n, fanOutOk);
  }

  /** The committed item keeps the invariants; in particular its author is
      the owner of its page. */
  lemma InsertNewsKeepsValid(db: Db, u: UserId, dto: NewsInsert, now: Time)
    requires Valid(db) && ValidNewsInsert(dto)
    ensures Valid(InsertNews(db, u, dto, now).db)
  {
  }

  lemma PublishKeepsValid(db: Db, u: UserId, dto: NewsInsert, now: Time, fanOutOk: bool)
    requires Valid(db) && ValidNewsInsert(dto)
    ensures Valid(PublishNews(db, u, dto, now, fanOutOk).db)
  {
    var s := InsertNews(db, u, dto, now);
    InsertNewsKeepsValid(db, u, dto, now);
    if s.result.Ok? {
      FanOutKeepsValid(s.db, dto.pageId, s.result.value.newsId, fanOutOk);
    }
  }

  // ---- Editing and deleting ----

  /** The guard of edit and delete: 404 exactly for a missing or deleted
      item, 403 exactly for an item by someone else. */
  lemma AuthoredItemOutcome(db: Db, u: UserId, id: NewsId)
    ensures AuthoredItem(db, u, id) == Err(NotFound) <==> id !in db.news || db.news[id].isDel
    ensures AuthoredItem(db, u, id) == Err(Forbidden) <==> id in db.news && !db.news[id].isDel && db.news[id].userId != u
    ensures AuthoredItem(db, u, id).Ok? ==> !AuthoredItem(db, u, id).value.isDel && AuthoredItem(db, u, id).value.userId == u
  {
  }

  /** A soft delete keeps the row and marks it deleted at `now`; the other
      columns, the other rows and the other tables stay; a second delete is
      404. */
  lemma DeleteOutcome(db: Db, u: UserId, id: NewsId, now: Time, later: Time)
    ensures var s := DeleteNews(db, u, id, now);
            s.result.Err? ==> AuthoredItem(db, u, id).Err? && s.result.status == AuthoredItem(db, u, id).status
    ensures var s := DeleteNews(db, u, id, now);
            s.result.Ok? ==>
              && id in s.db.news && id in db.news
              && s.db.news[id] == db.news[id].(isDel := true, delDtm := Some(now))
              && s.db.news.Keys == db.news.Keys
              && (forall k :: k in db.news && k != id ==> s.db.news[k] == db.news[k])
              && s.db == db.(news := s.db.news)
              && DeleteNews(s.db, u, id, later) == Step(s.db, Err(NotFound))
  {
  }

  lemma DeleteKeepsValid(db: Db, u: UserId, id: NewsId, now: Time)
    requires Valid(db)
    ensures Valid(DeleteNews(db, u, id, now).db)
  {
  }

  /** An edit changes the title, the content and the edit time and nothing
      else: page, author, creation time and deletion state stay, and so do the
      other rows and the other tables. */
  lemma UpdateOutcome(db: Db, u: UserId, dto: NewsUpdate, now: Time)
    ensures var s := UpdateNews(db, u, dto, now);
            s.result.Err? ==> AuthoredItem(db, u, dto.newsId).Err? && s.result.status == AuthoredItem(db, u, dto.newsId).status
    ensures var s := UpdateNews(db, u, dto, now);
            s.result.Ok? ==>
              var old_ := db.news[dto.newsId];
              var new_ := s.result.value;
              && dto.newsId in db.news && s.db.news == db.news[dto.newsId := new_]
              && new_.newsId == old_.newsId && new_.pageId == old_.pageId && new_.userId == old_.userId
              && new_.regDtm == old_.regDtm && new_.isDel == old_.isDel && new_.delDtm == old_.delDtm
              && new_.title == dto.title && new_.content == dto.content && new_.updDtm == Some(now)
              && s.db == db.(news := s.db.news)
  {
  }

  lemma UpdateKeepsValid(db: Db, u: UserId, dto: NewsUpdate, now: Time)
    requires Valid(db) && ValidNewsUpdate(dto)
    ensures Valid(UpdateNews(db, u, dto, now).db)
  {
  }

  /** A deleted item leaves both listings while its row, and every newsfeed
      row that names it, stay stored. */
  lemma DeletedItemHidden(db: Db, u: UserId, id: NewsId, now: Time, p: PageId, v: UserId)
    requires Valid(db)
    requires DeleteNews(db, u, id, now).result.Ok?
    ensures var d := DeleteNews(db, u, id, now).db;
            && id in d.news && d.feed == db.feed
            && (SearchSchoolNews(d, p, v).Ok? ==> forall n :: n in SearchSchoolNews(d, p, v).value ==> n.newsId != id)
            && (SearchNewsfeed(d, v).Ok? ==> forall n :: n in SearchNewsfeed(d, v).value ==> n.newsId != id)
  {
    var d := DeleteNews(db, u, id, now).db;
    DeleteKeepsValid(db, u, id, now);
    SchoolNewsExact(d, p, v);
    NewsfeedExact(d, v);
  }
}
