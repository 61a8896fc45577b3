/** Accounts: sign-up, sign-in and the deletion of an account by username,
    as transitions of the store. The password hash is the parameter `hash`;
    nothing is assumed of it beyond being a function. */
module UserService {
  import opened Tables
  import opened Ordering
  import opened UserDto
  import opened Auth

  /** The account with this username (`.first()` over the users table). */
  function FindUser(db: Db, username: string): (r: Option<UserId>)
    ensures r.Some? ==> r.value in db.users && db.users[r.value].username == username
    ensures r.None? ==> forall k :: k in db.users && 1 <= k < db.nextUserId ==> db.users[k].username != username
  {
    var named := k => k in db.users && db.users[k].username == username;
    var ks := KeysBetween(1, db.nextUserId, named);
    assert forall k :: 1 <= k < db.nextUserId && k in db.users && db.users[k].username == username ==> named(k) && k in ks;
    if ks == [] then None
    else
      assert named(ks[0]);
      Some(ks[0])
  }

  /** 409 when the username is taken; otherwise one new account whose stored
      password is the hash of the given one. */
  function SignUp(db: Db, hash: string -> string, dto: UserDto.SignUp, now: Time): (s: Step<User>)
    ensures s.result.Err? ==> s.result.status == Conflict && s.db == db
  {
    if FindUser(db, dto.username).Some? then Step(db, Err(Conflict))
    else
      var user := User(db.nextUserId, dto.username, hash(dto.password), now, UserInfo(dto.name, dto.role));
      Step(db.(users := db.users[user.userId := user], nextUserId := db.nextUserId + 1), Ok(user))
  }

  /** 401 for an unknown username or a hash that does not match; otherwise a
      token for that account. */
  function SignIn(db: Db, hash: string -> string, dto: UserDto.SignIn, now: Time): (r: Result<Token>)
    ensures r.Err? ==> r.status == Unauthorized
    ensures r.Ok? ==> exists k :: k in db.users && db.users[k].username == dto.username
                                 && db.users[k].password == hash(dto.password)
                                 && r.value == CreateAccessToken(db.users[k], now)
  {
    match FindUser(db, dto.username)
    case None => Err(Unauthorized)
    case Some(k) =>
      if hash(dto.password) != db.users[k].password then Err(Unauthorized)
      else Ok(CreateAccessToken(db.users[k], now))
  }

  /** Removes the account with this username if there is one. */
  function DeleteUserByUsername(db: Db, username: string): (d: Db)
    ensures d.users.Keys <= db.users.Keys
  {
    match FindUser(db, username)
    case None => db
    case Some(k) => db.(users := db.users - {k})
  }

  // ---- Properties ----

  /** With the keys in range the search is exact. */
  lemma FindUserExact(db: Db, username: string)
    requires Valid(db)
    ensures FindUser(db, username).None? <==> forall k :: k in db.users ==> db.users[k].username != username
  {
  }

  /** A taken username is 409 and the table is untouched. */
  lemma SignUpDuplicate(db: Db, hash: string -> string, dto: UserDto.SignUp, now: Time, k: UserId)
    requires Valid(db)
    requires k in db.users && db.users[k].username == dto.username
    ensures SignUp(db, hash, dto, now) == Step(db, Err(Conflict))
  {
  }

  /** A successful sign-up adds exactly one account, under a fresh id, with
      the hashed password, the given name and role; nothing else changes. */
  lemma SignUpAdds(db: Db, hash: string -> string, dto: UserDto.SignUp, now: Time)
    requires Valid(db)
    requires forall k :: k in db.users ==> db.users[k].username != dto.username
    ensures var s := SignUp(db, hash, dto, now);
            && s.result.Ok?
            && var u := s.result.value;
            && u.userId !in db.users
            && u == User(u.userId, dto.username, hash(dto.password), now, UserInfo(dto.name, dto.role))
            && s.db == db.(users := db.users[u.userId := u], nextUserId := s.db.nextUserId)
  {
    FindUserExact(db, dto.username);
  }

  lemma SignUpKeepsValid(db: Db, hash: string -> string, dto: UserDto.SignUp, now: Time)
    requires Valid(db) && ValidSignUp(dto)
    ensures Valid(SignUp(db, hash, dto, now).db)
  {
    var s := SignUp(db, hash, dto, now);
    if s.result.Ok? {
      FindUserExact(db, dto.username);
      var d := s.db;
      assert UsernamesUnique(d) by {
        forall a, b | a in d.users && b in d.users && d.users[a].username == d.users[b].username
          ensures a == b
        {
        }
      }
    }
  }

  /** The success branch of sign-up in one step: the store it commits is
      valid. */
  lemma SignUpFresh(db: Db, hash: string -> string, dto: UserDto.SignUp, now: Time)
    requires Valid(db) && ValidSignUp(dto)
    requires FindUser(db, dto.username).None?
    ensures var user := User(db.nextUserId, dto.username, hash(dto.password), now, UserInfo(dto.name, dto.role));
            var d := db.(users := db.users[db.nextUserId := user], nextUserId := db.nextUserId + 1);
            && SignUp(db, hash, dto, now) == Step(d, Ok(user))
            && Valid(d)
  {
    SignUpKeepsValid(db, hash, dto, now);
  }

  /** Sign-in refuses an unknown username and a password whose hash differs. */
  lemma SignInRefusals(db: Db, hash: string -> string, dto: UserDto.SignIn, now: Time)
    requires Valid(db)
    ensures (forall k :: k in db.users ==> db.users[k].username != dto.username) ==>
              SignIn(db, hash, dto, now) == Err(Unauthorized)
    ensures (forall k :: k in db.users && db.users[k].username == dto.username ==> db.users[k].password != hash(dto.password)) ==>
              SignIn(db, hash, dto, now) == Err(Unauthorized)
  {
    FindUserExact(db, dto.username);
  }

  /** On any valid store, an account whose username and password hash
      match signs in and gets its own token. */
  lemma SignInAccepts(db: Db, hash: string -> string, dto: UserDto.SignIn, now: Time, k: UserId)
    requires Valid(db)
    requires k in db.users && db.users[k].username == dto.username && db.users[k].password == hash(dto.password)
    ensures SignIn(db, hash, dto, now) == Ok(CreateAccessToken(db.users[k], now))
  {
    FindUserExact(db, dto.username);
  }

  /** Sign-up then sign-in with the same credentials succeeds, and the token
      carries the new account's id and role and passes the gate for that role
      until it expires. */
  lemma SignUpThenSignIn(db: Db, hash: string -> string, dto: UserDto.SignUp, now: Time, later: Time, at: Time)
    requires Valid(db) && ValidSignUp(dto)
    requires SignUp(db, hash, dto, now).result.Ok?
    requires later <= at < later + TokenLifetime
    ensures var s := SignUp(db, hash, dto, now);
            var r := SignIn(s.db, hash, UserDto.SignIn(dto.username, dto.password), later);
            && r == Ok(CreateAccessToken(s.result.value, later))
            && r.value.payload.userId == Some(s.result.value.userId)
            && r.value.payload.role == Some(RoleName(dto.role))
            && ValidateAuth(Bearer(r.value), RoleName(dto.role), at) == Ok(Some(s.result.value.userId))
  {
    var s := SignUp(db, hash, dto, now);
    SignUpKeepsValid(db, hash, dto, now);
    FindUserExact(s.db, dto.username);
    var k := FindUser(s.db, dto.username).value;
    assert k == s.result.value.userId;
    IssuedTokenAccepted(s.result.value, later, at);
  }

  /** With sign-in validated as sign-up validates, the raw credentials that
      opened an account sign in to it. */
  lemma RawCredentialsSignIn(db: Db, hash: string -> string, name: Option<string>, role: Option<string>,
                             username: Option<string>, password: Option<string>, now: Time, later: Time)
    requires Valid(db)
    requires ParseSignUp(name, role, username, password).Ok?
    requires SignUp(db, hash, ParseSignUp(name, role, username, password).value, now).result.Ok?
    ensures var s := SignUp(db, hash, ParseSignUp(name, role, username, password).value, now);
            && ParseSignInCorrected(username, password).Ok?
            && SignIn(s.db, hash, ParseSignInCorrected(username, password).value, later) == Ok(CreateAccessToken(s.result.value, later))
  {
    var d := ParseSignUp(name, role, username, password).value;
    SignUpCredentialsSignIn(name, role, username, password);
    SignUpThenSignIn(db, hash, d, now, later, later);
  }

  /** Deleting removes the account with that username and only it, or does
      nothing when there is none; deleting twice is deleting once. */
  lemma DeleteUserRemoves(db: Db, username: string)
    requires Valid(db)
    ensures var d := DeleteUserByUsername(db, username);
            && d == db.(users := d.users)
            && (forall k :: k in d.users <==> k in db.users && db.users[k].username != username)
            && (forall k :: k in d.users ==> d.users[k] == db.users[k])
            && DeleteUserByUsername(d, username) == d
            && Valid(d)
  {
    FindUserExact(db, username);
    var d := DeleteUserByUsername(db, username);
    assert Valid(d);
    FindUserExact(d, username);
  }
}
