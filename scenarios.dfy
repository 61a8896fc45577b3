/** The newsfeed story of the service's own tests, end to end: newsfeed rows
    are made at publication time for the subscribers of that moment, so an
    item published before a subscription never reaches the new subscriber,
    one published after it does, and it stays after unsubscribing. */
module Scenarios {
  import opened Tables
  import opened AdminDto
  import opened StudentService
  import opened AdminService

  /** With a successful fan-out a new item reaches a user's newsfeed exactly
      when the user subscribes to its page at publication time. */
  lemma PublishedItemReach(db: Db, admin: UserId, dto: NewsInsert, now: Time, v: UserId)
    requires Valid(db) && ValidNewsInsert(dto)
    requires InsertNews(db, admin, dto, now).result.Ok?
    ensures var s := PublishNews(db, admin, dto, now, true);
            && (UserNewsfeed(v, s.result.value.newsId) in s.db.feed <==> (v, dto.pageId) in db.subs)
            && (SearchNewsfeed(s.db, v).Ok? && s.result.value in SearchNewsfeed(s.db, v).value <==> (v, dto.pageId) in db.subs)
  {
    var s := PublishNews(db, admin, dto, now, true);
    PublishOutcome(db, admin, dto, now, true);
    PublishFansOut(db, admin, dto, now, true);
    PublishKeepsValid(db, admin, dto, now, true);
    NewsfeedExact(s.db, v);
    assert StoredNews(s.db.news, s.result.value);
  }

  /** Stage one: a new page and its first item; nobody subscribes yet, so the
      student gets no row for it. */
  lemma PageWithFirstItem(db: Db, admin: UserId, student: UserId, page: PageInsert, first: NewsInsert, now: Time)
    requires Valid(db) && ValidPageInsert(page) && ValidNewsInsert(first)
    ensures var d1 := CreatePage(db, admin, page, now).db;
            var p := db.nextPageId;
            var s2 := PublishNews(d1, admin, first.(pageId := p), now + 1, true);
            && s2.result.Ok? && Valid(s2.db)
            && p in s2.db.pages && s2.db.pages[p].userId == admin
            && (student, p) !in s2.db.subs
            && UserNewsfeed(student, s2.result.value.newsId) !in s2.db.feed
            && ((forall f :: f in db.feed ==> f.userId != student) ==> forall f :: f in s2.db.feed ==> f.userId != student)
  {
    var d1 := CreatePage(db, admin, page, now).db;
    var p := db.nextPageId;
    CreatePageKeepsValid(db, admin, page, now);
    assert (student, p) !in d1.subs;
    var f1 := first.(pageId := p);
    PublishOutcome(d1, admin, f1, now + 1, true);
    PublishedItemReach(d1, admin, f1, now + 1, student);
    PublishKeepsValid(d1, admin, f1, now + 1, true);
    PublishFansOut(d1, admin, f1, now + 1, true);
  }

  /** Stage two: subscribing later gives the student no row for an item
      published earlier. */
  lemma LateSubscription(d: Db, student: UserId, p: PageId, now: Time, n: SchoolNews)
    requires Valid(d) && p in d.pages && (student, p) !in d.subs
    requires UserNewsfeed(student, n.newsId) !in d.feed
    ensures var s3 := Subscribe(d, student, p, now);
            && s3.result.Ok? && Valid(s3.db)
            && s3.db.pages == d.pages && s3.db.news == d.news && (student, p) in s3.db.subs
            && (SearchNewsfeed(s3.db, student).Ok? ==> n !in SearchNewsfeed(s3.db, student).value)
            && ((forall f :: f in d.feed ==> f.userId != student) ==> SearchNewsfeed(s3.db, student) == Err(NotFound))
  {
    var s3 := Subscribe(d, student, p, now);
    SubscribeOutcome(d, student, p, now);
    SubscribeKeepsValid(d, student, p, now);
    NewsfeedExact(s3.db, student);
  }

  lemma NewsfeedFollowsPublication(db: Db, admin: UserId, student: UserId, page: PageInsert,
                                   first: NewsInsert, second: NewsInsert, now: Time)
    requires Valid(db) && ValidPageInsert(page) && ValidNewsInsert(first) && ValidNewsInsert(second)
    ensures var d1 := CreatePage(db, admin, page, now).db;
            var p := db.nextPageId;
            var s2 := PublishNews(d1, admin, first.(pageId := p), now + 1, true);
            var s3 := Subscribe(s2.db, student, p, now + 2);
            var s4 := PublishNews(s3.db, admin, second.(pageId := p), now + 3, true);
            var s5 := Unsubscribe(s4.db, student, p);
            && s2.result.Ok? && s3.result.Ok? && s4.result.Ok? && s5.result.Ok?
            && (SearchNewsfeed(s3.db, student).Ok? ==> s2.result.value !in SearchNewsfeed(s3.db, student).value)
            && ((forall f :: f in db.feed ==> f.userId != student) ==> SearchNewsfeed(s3.db, student) == Err(NotFound))
            && SearchNewsfeed(s4.db, student).Ok?
            && s4.result.value in SearchNewsfeed(s4.db, student).value
            && SearchNewsfeed(s5.db, student) == SearchNewsfeed(s4.db, student)
            && SearchSchoolNews(s5.db, p, student) == Err(Forbidden)
  {
    var d1 := CreatePage(db, admin, page, now).db;
    var p := db.nextPageId;
    var s2 := PublishNews(d1, admin, first.(pageId := p), now + 1, true);
    PageWithFirstItem(db, admin, student, page, first, now);
    LateSubscription(s2.db, student, p, now + 2, s2.result.value);

    var s3 := Subscribe(s2.db, student, p, now + 2);
    var f2 := second.(pageId := p);
    PublishOutcome(s3.db, admin, f2, now + 3, true);
    PublishedItemReach(s3.db, admin, f2, now + 3, student);
    var s4 := PublishNews(s3.db, admin, f2, now + 3, true);
    UnsubscribeOutcome(s4.db, student, p);
    UnsubscribeKeepsNewsfeed(s4.db, student, p, student);
  }
}
