# School newsfeed service — a verified model

This project models the service layer of the school newsfeed back end. There
are two kinds of account: admins and students.

- Admins register school pages, publish news items to their pages, edit them
  and soft-delete them.
- Students subscribe to pages and read each page's news.
- Students also read an aggregate newsfeed. It is built from newsfeed rows,
  which are written once, when an item is published, for the page's
  subscribers at that moment.
- Accounts sign up with a hashed password and sign in for a 60-minute bearer
  token. A role gate admits a token to the student or the admin endpoints.

The store has five tables: users with their profile, school pages, school
news, subscriptions, and newsfeed rows. The model has two layers.

- **Transitions.** Modules `UserService`, `StudentService` and `AdminService`
  give each service as a function from the store (`Tables.Db`) to the store
  after its commit and its answer. The answer is a value or one of the statuses
  401, 403, 404, 409 or 422. The lemmas about these functions state the guard
  order, exactly what changes, what stays the same, and which invariants are
  kept.
- **Store.** `Storage.Store` is a class whose fields are the tables and their
  auto-increment counters. Its methods run the same guards and update the
  fields in place. Each is proved to move the store exactly as its transition
  does and to keep `Tables.Valid`. That predicate holds:
  - keys, and unique usernames;
  - the news → page, subscription → page and newsfeed row → news references;
  - every item's author is its page's owner;
  - deletion stamps;
  - column widths.

`AdminDto` and `UserDto` model the request-body validators. Every string field
is stripped (except in sign-in) and then checked for length and character
class. The regular-expression classes and the whitespace set are the Unicode
ones the validator uses. `Text` holds the stripping, and `Ordering` holds the
table scans and the newest-first ordering.

Three things are parameters:

- the password hash, a `string -> string` with no assumption such as
  injectivity;
- the clock, an integer number of seconds;
- whether a commit succeeds, for the fan-out.

A token is its payload (user id, role, expiry) plus a flag that says whether
its signature checks.

## Model

| member | source | states |
|---|---|---|
| `Tables.EmptyDb` | newsfeed_app/common/models/entity_models.py:9-80 | the empty store meets every key, uniqueness, reference, authorship, deletion-stamp and width invariant of the schema |
| `Tables.SubscriptionPerPair` | newsfeed_app/common/models/entity_models.py:70-80 | two stored subscriptions for the same (user, page) are the same row: the composite primary key |
| `Tables.RoleName` | newsfeed_app/user/dto_models.py:8-10 | the stored role string is non-empty and fits the 10-character role column |
| `Text.Strip` | newsfeed_app/admin/dto_models.py:7-8 | a stripped value has no whitespace at either end and is no longer than the input |
| `Text.StripIsInfix` | newsfeed_app/admin/dto_models.py:7-8 | the input is whitespace, then the stripped value, then whitespace |
| `Text.StripStripped` | newsfeed_app/user/dto_models.py:14 | stripping leaves already stripped text unchanged |
| `Text.StripIdempotent` | newsfeed_app/user/dto_models.py:21 | stripping twice is stripping once |
| `Text.StripPadded` | newsfeed_app/admin/dto_models.py:13-14 | any surrounding whitespace around a stripped non-empty value is removed and nothing else |
| `Ordering.SortDesc` | newsfeed_app/stdent/student_service.py:20 | the listing order is by timestamp, non-increasing, and a permutation of the rows |
| `Ordering.SortDescSameElements` | newsfeed_app/stdent/student_service.py:52 | ordering keeps exactly the rows it was given |
| `Ordering.KeysBetween` | newsfeed_app/stdent/student_service.py:19 | a table scan returns exactly the keys in range the filter accepts, strictly increasing |
| `Ordering.DistinctIffSingleCounts` | newsfeed_app/stdent/student_service.py:130 | a listing is free of repetitions exactly when no row occurs twice in its multiset |
| `Ordering.PermutationKeepsDistinct` | newsfeed_app/stdent/student_service.py:130 | reordering a listing cannot introduce a repeated row |
| `AdminDto.ParsePageInsert` | newsfeed_app/admin/dto_models.py:6-17 | every accepted page body is valid (both names 1–20 Hangul syllables) and every refusal is 422; `AdminDto.PageInsertRule` states which raw bodies are accepted and what is stored |
| `AdminDto.PageInsertRule` | newsfeed_app/admin/dto_models.py:6-17 | a page body is accepted if and only if both fields are present and both stripped fields are 1–20 Hangul syllables; the stored names are the stripped fields |
| `AdminDto.ParseNewsText` | newsfeed_app/admin/dto_models.py:32-37 | accepted title and content are stripped, the title 1–100 letters, digits, Hangul or whitespace, the content 10–500 characters; every refusal is 422 |
| `AdminDto.NewsTextRule` | newsfeed_app/admin/dto_models.py:32-37 | title and content are accepted if and only if both are present and their stripped forms pass the title and content rules; the kept values are the stripped forms |
| `AdminDto.ParseNewsInsert` | newsfeed_app/admin/dto_models.py:30-37 | every accepted publish body is a valid insert body and every refusal is 422 |
| `AdminDto.NewsInsertRule` | newsfeed_app/admin/dto_models.py:30-37 | a publish body is accepted if and only if page_id, title and content are present and the stripped title and content pass their rules; the body kept is (page_id, stripped title, stripped content) |
| `AdminDto.PaddedNewsAccepted` | newsfeed_app/admin/dto_models.py:32-37 | whitespace around the title and content of a valid publish body does not change what it validates to |
| `AdminDto.ParseNewsUpdate` | newsfeed_app/admin/dto_models.py:54-60 | every accepted edit body is a valid update body and every refusal is 422 |
| `AdminDto.NewsUpdateRule` | newsfeed_app/admin/dto_models.py:54-60 | an edit body is accepted if and only if news_id, title and content are present and the stripped title and content pass their rules; the body kept is (news_id, stripped title, stripped content) |
| `AdminDto.PageInsertRoundTrip` | newsfeed_app/admin/dto_models.py:6-17 | a valid page body validates to itself |
| `AdminDto.NewsInsertRoundTrip` | newsfeed_app/admin/dto_models.py:30-37 | a valid publish body validates to itself |
| `AdminDto.NewsUpdateRoundTrip` | newsfeed_app/admin/dto_models.py:54-60 | a valid edit body validates to itself |
| `AdminDto.LocationRule` | newsfeed_app/admin/dto_models.py:7-8 | a location is accepted if and only if its stripped form has 1–20 characters, all Hangul syllables, and that stripped form is what is stored |
| `AdminDto.UpdateMatchesInsert` | newsfeed_app/admin/dto_models.py:56-60 | edit and publish accept the same title and content and store the same stripped values |
| `AdminDto.IdsRequired` | newsfeed_app/admin/dto_models.py:31 | a publish body without page_id, or an edit body without news_id, is 422 whatever else it holds |
| `AdminDto.ValidatedFitsColumns` | newsfeed_app/common/models/entity_models.py:44-59 | validated locations, school names, titles and contents fit their columns |
| `AdminDto.SymbolTitleRejected` | newsfeed_app/tests/test_main.py:229-235 | the title "서초중학교 소식@@@@" is rejected |
| `AdminDto.SampleNewsAccepted` | newsfeed_app/tests/test_main.py:237-245 | the sample publish body of the tests is accepted unchanged |
| `UserDto.ParseRole` | newsfeed_app/user/dto_models.py:18-20 | only "student" and "admin" are roles; anything else or nothing is 422 |
| `UserDto.RoleRoundTrip` | newsfeed_app/user/dto_models.py:8-10 | each role parses back from its stored name and only from it; a missing role is rejected |
| `UserDto.ParseSignUp` | newsfeed_app/user/dto_models.py:13-29 | every accepted sign-up body is valid (stripped password, name, username and password rules) and carries the role that was sent; every refusal is 422 |
| `UserDto.SignUpRule` | newsfeed_app/user/dto_models.py:13-29 | a sign-up body is accepted if and only if every field is present, the role is one of the two, and the stripped name, username and password pass their rules; the account gets the stripped values |
| `UserDto.SignUpRoundTrip` | newsfeed_app/user/dto_models.py:13-29 | a valid sign-up body validates to itself |
| `UserDto.SignUpFitsColumns` | newsfeed_app/common/models/entity_models.py:12-22 | a validated username and name fit their columns |
| `UserDto.SignUpRejections` | newsfeed_app/tests/test_main.py:42-66 | a missing role, a username with symbols and a 40-character password are each rejected |
| `UserDto.WidePasswordClass` | newsfeed_app/user/dto_models.py:26 | `<` and `[` pass the password class, because `)-_` is the range U+0029..U+005F |
| `UserDto.ParseSignIn` | newsfeed_app/user/dto_models.py:41-49 | an accepted sign-in body is the raw username and password, unstripped, passing the sign-in rules; every refusal is 422 |
| `UserDto.SignInRule` | newsfeed_app/user/dto_models.py:41-49 | sign-in as written accepts if and only if both fields are present and the raw username and password pass the sign-in rules, and keeps them unstripped |
| `UserDto.SignInRefusesSignUpPassword` | newsfeed_app/user/dto_models.py:46 | as written, sign-up accepts the password "test 1234" and sign-in refuses it |
| `UserDto.ParseSignInCorrected` | newsfeed_app/user/dto_models.py:25-26 | corrected sign-in yields only a stripped password and a username that pass the sign-up rules; every refusal is 422 |
| `UserDto.SignInCorrectedRule` | newsfeed_app/user/dto_models.py:21-26 | corrected sign-in accepts if and only if both fields are present and their stripped forms pass the sign-up username and password rules, and signs in with the stripped forms |
| `UserDto.SignUpCredentialsSignIn` | newsfeed_app/user/dto_models.py:41-49 | corrected sign-in accepts every raw username and password that sign-up accepts and yields the values sign-up stored |
| `Auth.CreateAccessToken` | newsfeed_app/user/user_service.py:62-70 | an issued token is signed, carries the account's id and role name, and expires 3600 seconds after issue |
| `Auth.Decode` | newsfeed_app/user/user_service.py:92-98 | decoding succeeds if and only if the signature checks and the expiry is after now, and then yields the payload; otherwise 401 |
| `Auth.BearerCredentials` | newsfeed_app/user/user_service.py:73-81 | a request without bearer credentials is 401, not 403; with credentials the token passes through unchanged |
| `Auth.ValidateAuth` | newsfeed_app/user/user_service.py:87-108 | the role gate answers only 401 or 403 when it refuses |
| `Auth.ValidateAuthDecision` | newsfeed_app/user/user_service.py:87-106 | 401 if and only if the token is missing, undecodable or expired; else 403 if and only if the role is absent, empty or another role; else the payload's user id |
| `Auth.IssuedTokenAccepted` | newsfeed_app/user/user_service.py:63-67 | a fresh token passes its own role's gate for 60 minutes and yields the user's id |
| `Auth.IssuedTokenLimits` | newsfeed_app/tests/test_main.py:172-178 | within its lifetime a token is 403 at the other role's gate; after 60 minutes it is 401 at every gate |
| `UserService.FindUser` | newsfeed_app/user/user_service.py:22 | the user found has that username; none is found only when no account in the key range has it |
| `UserService.FindUserExact` | newsfeed_app/user/user_service.py:46 | on a valid store, no account is found exactly when no account has the username |
| `UserService.SignUp` | newsfeed_app/user/user_service.py:19-40 | a refused sign-up is 409 and leaves the store as it was |
| `UserService.SignUpDuplicate` | newsfeed_app/user/user_service.py:22-24 | signing up with a taken username is 409 and changes nothing |
| `UserService.SignUpAdds` | newsfeed_app/user/user_service.py:27-34 | a new username adds exactly one account under a fresh id, with the hashed password, name and role; nothing else changes |
| `UserService.SignUpKeepsValid` | newsfeed_app/common/models/entity_models.py:12 | sign-up keeps every invariant, in particular unique usernames |
| `UserService.SignIn` | newsfeed_app/user/user_service.py:43-59 | a refused sign-in is 401; an accepted one is the token of an account with that username and password hash |
| `UserService.SignInRefusals` | newsfeed_app/user/user_service.py:46-53 | an unknown username is 401; a password whose hash differs is 401 |
| `UserService.SignInAccepts` | newsfeed_app/user/user_service.py:43-59 | on any valid store, an account whose username and password hash match signs in and gets its own token |
| `UserService.SignUpThenSignIn` | newsfeed_app/user/user_service.py:56 | after sign-up, sign-in with the same credentials succeeds, and the token carries the new id and role and passes that role's gate until it expires |
| `UserService.RawCredentialsSignIn` | newsfeed_app/tests/test_main.py:139-159 | with corrected sign-in, the raw credentials that opened an account sign in to it |
| `UserService.DeleteUserByUsername` | newsfeed_app/user/user_service.py:116-120 | deleting an account only removes users |
| `UserService.DeleteUserRemoves` | newsfeed_app/user/user_service.py:116-120 | deletion removes exactly the account with that username, or nothing, touches no other table, is idempotent and keeps the invariants |
| `StudentService.Listing` | newsfeed_app/stdent/student_service.py:23-24 | the shared 404 of the three listings: an empty result is 404, any other is returned as it is |
| `StudentService.SearchMySubs` | newsfeed_app/stdent/student_service.py:16-37 | the listing is non-empty and newest first, or 404 |
| `StudentService.MySubsExact` | newsfeed_app/stdent/student_service.py:19-24 | 404 exactly when the caller has no subscription; otherwise exactly the caller's stored subscriptions, each once |
| `StudentService.SubscribedPages` | newsfeed_app/stdent/student_service.py:19 | the scan finds every page the caller subscribes to, and only those, in increasing order |
| `StudentService.NewsQuery` | newsfeed_app/stdent/student_service.py:52 | a news query is newest first |
| `StudentService.NewsQueryExact` | newsfeed_app/stdent/student_service.py:50-55 | a news query holds every stored item its filter keeps and no other, each once, and is empty exactly when no item qualifies |
| `StudentService.SearchSchoolNews` | newsfeed_app/stdent/student_service.py:40-76 | refusals are 403 or 404; an answer is non-empty and newest first |
| `StudentService.SchoolNewsExact` | newsfeed_app/stdent/student_service.py:44-58 | 403 exactly without a current subscription; 404 exactly when the page has no item that is not deleted; otherwise exactly those items, each once |
| `StudentService.SchoolNewsNeedsSubscription` | newsfeed_app/tests/test_main.py:512-516 | without a subscription the page listing is 403 whatever newsfeed rows and items exist |
| `StudentService.SearchNewsfeed` | newsfeed_app/stdent/student_service.py:121-152 | the aggregate newsfeed is non-empty and newest first, or 404 |
| `StudentService.NewsfeedExact` | newsfeed_app/stdent/student_service.py:125-136 | 404 exactly when no item that is not deleted has a row for the caller; otherwise exactly those items, each once |
| `StudentService.NewsfeedIgnoresSubscriptions` | newsfeed_app/stdent/student_service.py:125-133 | the aggregate newsfeed does not depend on the subscriptions |
| `StudentService.Subscribe` | newsfeed_app/stdent/student_service.py:79-101 | a refused subscription leaves the store as it was |
| `StudentService.SubscribeOutcome` | newsfeed_app/stdent/student_service.py:84-97 | 404 exactly for a missing page, whatever the subscriptions; 409 exactly for an existing one on an existing page; otherwise exactly one new row (user, page, now) and nothing else changes |
| `StudentService.SubscribeTwice` | newsfeed_app/tests/test_main.py:399-403 | a second subscription to the same page is 409 and changes nothing |
| `StudentService.SubscribeKeepsValid` | newsfeed_app/common/models/entity_models.py:70-80 | subscribing keeps every invariant |
| `StudentService.Unsubscribe` | newsfeed_app/stdent/student_service.py:104-118 | a refused unsubscription leaves the store as it was |
| `StudentService.UnsubscribeOutcome` | newsfeed_app/stdent/student_service.py:109-115 | 404 exactly without a subscription; otherwise only that pair is removed, everything else stays, and a second unsubscribe is 404 |
| `StudentService.UnsubscribeKeepsValid` | newsfeed_app/stdent/student_service.py:114-115 | unsubscribing keeps every invariant |
| `StudentService.UnsubscribeKeepsNewsfeed` | newsfeed_app/tests/test_main.py:581-589 | unsubscribing leaves everyone's aggregate newsfeed as it was, and closes the page listing to the caller |
| `StudentService.FeedBatch` | newsfeed_app/stdent/student_service.py:158-164 | the batch holds a row (s, item) exactly for each current subscriber s of the page |
| `StudentService.FanOut` | newsfeed_app/stdent/student_service.py:155-169 | the fan-out changes only the newsfeed rows, and never removes one |
| `StudentService.FanOutOutcome` | newsfeed_app/stdent/student_service.py:161-169 | no subscribers, a failed commit, a missing item or an existing row all leave the store as it was; otherwise exactly the subscribers' rows are added |
| `StudentService.FanOutKeepsValid` | newsfeed_app/common/models/entity_models.py:30-37 | the fan-out keeps every invariant, newsfeed rows referencing stored items included |
| `AdminService.CreatePage` | newsfeed_app/admin/admin_service.py:18-30 | registering a page always succeeds |
| `AdminService.CreatePageAdds` | newsfeed_app/admin/admin_service.py:23-26 | the new page has a fresh id, the caller as owner and the given names; nothing else changes |
| `AdminService.CreatePageKeepsValid` | newsfeed_app/admin/admin_service.py:23-26 | registering a validated page keeps every invariant |
| `AdminService.InsertNews` | newsfeed_app/admin/admin_service.py:38-50 | a refused publication leaves the store as it was |
| `AdminService.InsertNewsKeepsValid` | newsfeed_app/admin/admin_service.py:46-50 | committing a validated item keeps every invariant; its author is the page's owner |
| `AdminService.PublishNews` | newsfeed_app/admin/admin_service.py:52-57 | the answer of publishing is that of the item's commit, whatever the fan-out does |
| `AdminService.PublishOutcome` | newsfeed_app/admin/admin_service.py:38-50 | 404 exactly for a missing page, 403 exactly for another owner's page, 404 first; otherwise a fresh item on that page by the caller (so by the page's owner), with the given title and content, not deleted, never edited; pages, subscriptions and users untouched |
| `AdminService.PublishFansOut` | newsfeed_app/admin/admin_service.py:56 | a successful fan-out adds one row per current subscriber for the new item and no other, a failed one adds nothing, and the answer is the same either way |
| `AdminService.PublishKeepsValid` | newsfeed_app/admin/admin_service.py:33-57 | publishing a validated item, fan-out included, keeps every invariant |
| `AdminService.AuthoredItem` | newsfeed_app/admin/admin_service.py:64-70 | the guard hands back the stored item it checked |
| `AdminService.AuthoredItemOutcome` | newsfeed_app/admin/admin_service.py:83-89 | 404 exactly for a missing or deleted item, 403 exactly for another author's item; a passed item is live and the caller's |
| `AdminService.DeleteNews` | newsfeed_app/admin/admin_service.py:60-77 | a refused delete leaves the store as it was |
| `AdminService.DeleteOutcome` | newsfeed_app/admin/admin_service.py:64-74 | a refusal is the guard's status; a delete keeps the row and sets only is_del and del_dtm, touches no other row or table, and a second delete is 404 |
| `AdminService.DeleteKeepsValid` | newsfeed_app/admin/admin_service.py:72-74 | soft-deleting keeps every invariant |
| `AdminService.DeletedItemHidden` | newsfeed_app/stdent/student_service.py:51 | a deleted item stays stored, with its newsfeed rows, but appears in neither listing |
| `AdminService.UpdateNews` | newsfeed_app/admin/admin_service.py:80-99 | a refused edit leaves the store as it was |
| `AdminService.UpdateOutcome` | newsfeed_app/admin/admin_service.py:83-95 | a refusal is the guard's status; an edit changes only title, content and upd_dtm, keeping page, author, creation time and deletion state, and no other row or table |
| `AdminService.UpdateKeepsValid` | newsfeed_app/admin/admin_service.py:91-95 | editing with a validated body keeps every invariant |
| `Scenarios.PublishedItemReach` | newsfeed_app/stdent/student_service.py:158-167 | with a successful fan-out a new item reaches a user's newsfeed exactly when that user subscribes to its page at publication time |
| `Scenarios.PageWithFirstItem` | newsfeed_app/tests/test_main.py:533-550 | a new page's first item, published before anyone subscribes, gives the student no newsfeed row, and the store stays valid |
| `Scenarios.LateSubscription` | newsfeed_app/stdent/student_service.py:84-97 | a later subscription succeeds but gives no row for an item published earlier; a student without rows still gets 404 from the newsfeed |
| `Scenarios.NewsfeedFollowsPublication` | newsfeed_app/tests/test_main.py:531-589 | page, item, subscribe, item, unsubscribe: the first item never reaches the late subscriber (404 for a fresh one); the second does and stays after unsubscribing; the page listing is then 403 |
| `Storage.Store.constructor` | newsfeed_app/common/models/entity_models.py:9-80 | a fresh store is empty and valid |
| `Storage.Store.SignUp` | newsfeed_app/user/user_service.py:19-40 | the store moves and answers as `UserService.SignUp` and stays valid |
| `Storage.Store.SignIn` | newsfeed_app/user/user_service.py:43-59 | answers as `UserService.SignIn`, changing nothing |
| `Storage.Store.DeleteUserByUsername` | newsfeed_app/user/user_service.py:116-120 | the store moves as `UserService.DeleteUserByUsername` and stays valid |
| `Storage.Store.Subscribe` | newsfeed_app/stdent/student_service.py:79-101 | the store moves and answers as `StudentService.Subscribe` and stays valid |
| `Storage.Store.Unsubscribe` | newsfeed_app/stdent/student_service.py:104-118 | the store moves and answers as `StudentService.Unsubscribe` and stays valid |
| `Storage.Store.FanOut` | newsfeed_app/stdent/student_service.py:155-169 | the store moves as `StudentService.FanOut` and stays valid |
| `Storage.Store.CreatePage` | newsfeed_app/admin/admin_service.py:18-30 | the store moves and answers as `AdminService.CreatePage` and stays valid |
| `Storage.Store.PublishNews` | newsfeed_app/admin/admin_service.py:33-57 | commit then fan-out: the store moves and answers as `AdminService.PublishNews` and stays valid |
| `Storage.Store.DeleteNews` | newsfeed_app/admin/admin_service.py:60-77 | the store moves and answers as `AdminService.DeleteNews` and stays valid |
| `Storage.Store.UpdateNews` | newsfeed_app/admin/admin_service.py:80-99 | the store moves and answers as `AdminService.UpdateNews` and stays valid |

## Left out

- HTTP routing, dependency injection and the response envelopes are not modelled. The services are modelled directly, the role gate is a separate function (`Auth.ValidateAuth`), and an error is its status.
- The listings return stored rows. The joined display fields (school name, location, admin name) that the query attaches to each row are not modelled.
- SHA-256 and JWT encoding, signing and the algorithm choice are foreign libraries. The hash is a parameter, and a token is its payload plus a signature-ok flag. Tokens without an `exp` claim and claims of other JSON types are not modelled; the role claim is a string or absent.
- `datetime.now` is an integer clock parameter. Time zones and sub-second precision are not modelled.
- The background task (`asyncio.create_task`) is not modelled. The fan-out runs sequentially right after the item's commit. Its race with concurrent subscriptions and its use of the shared session are concurrency and are left out.
- The ORM's cascading deletes are not modelled. Deleting an account removes only its row, which includes the embedded profile. So `Tables.Valid` carries no references from pages, news, subscriptions or newsfeed rows to users.
- Foreign keys to tb_user_info are not checked on subscribe, publish or page registration. The caller's id comes from a token the gate has accepted.
- Logging of the swallowed fan-out failure is not modelled.
- The validator's JSON type coercion is not modelled. A missing field is `None`; a present one is already a string or an integer.
- The 200-character password column does not bound the stored value, because the hash is opaque.
- Ids are unbounded integers, not 64-bit: counter overflow is not modelled.
- Ties in timestamps: the database's order among equal timestamps is unspecified. The model fixes one order (a stable insertion sort) and proves only "newest first".
- `Tables.Valid` does not require references from news, pages or subscriptions to the owning user, for the cascade reason above.
- The fan-out is not an idempotent insert. The code adds the whole batch in one commit, and that commit fails as a whole when a row already exists. The model follows the code (`StudentService.FanOutOutcome`).

## Findings

| source | as written | input that shows it | evidently intended | confidence | as-written member | corrected member |
|---|---|---|---|---|---|---|
| newsfeed_app/user/dto_models.py:46 | sign-up strips the password and allows `\s` in it; sign-in neither strips nor allows `\s` | sign-up with password "test 1234" succeeds, then sign-in with "test 1234" is 422 forever | sign-in accepts whatever password sign-up stored | not executed | `UserDto.SignInRefusesSignUpPassword` | `UserDto.SignUpCredentialsSignIn` |

The corrected sign-in (`UserDto.ParseSignInCorrected`) validates username and
password as sign-up does. `UserService.RawCredentialsSignIn` proves that, with
it, the raw credentials that opened an account always sign in to it.
