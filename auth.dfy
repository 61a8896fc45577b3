/** Access tokens and the role gate. The signed token is its payload plus a
    flag saying whether the signature checks under the server key; signing and
    decoding themselves are not modelled. */
module Auth {
  import opened Tables

  /** The claims: `user_id`, `role` (either may be absent from a forged or
      foreign payload) and the expiry `exp`. */
  datatype Payload = Payload(userId: Option<UserId>, role: Option<string>, exp: Time)

  datatype Token = Token(signatureOk: bool, payload: Payload)

  /** The Authorization header as the bearer scheme sees it. */
  datatype AuthHeader = NoCredentials | Bearer(token: Token)

  /** 60 minutes, in seconds. */
  const TokenLifetime: int := 60 * 60

  /** The token issued at sign-in: the user's id and role, expiring 60
      minutes after `now`. */
  function CreateAccessToken(user: User, now: Time): (t: Token)
    ensures t.signatureOk
    ensures t.payload.exp == now + 3600
    ensures t.payload.userId == Some(user.userId) && t.payload.role == Some(RoleName(user.info.role))
  {
    Token(true, Payload(Some(user.userId), Some(RoleName(user.info.role)), now + TokenLifetime))
  }

  /** Decoding: a bad signature or an expiry not after `now` is rejected. */
  function Decode(t: Token, now: Time): (r: Result<Payload>)
    ensures r.Ok? <==> t.signatureOk && now < t.payload.exp
    ensures r.Ok? ==> r.value == t.payload
    ensures r.Err? ==> r.status == Unauthorized
  {
    if !t.signatureOk then Err(Unauthorized)
    else if t.payload.exp <= now then Err(Unauthorized)
    else Ok(t.payload)
  }

  /** The bearer scheme: no credentials is 401 (not the library's default 403). */
  function BearerCredentials(h: AuthHeader): (r: Result<Token>)
    ensures r.Err? <==> h.NoCredentials?
    ensures r.Ok? ==> r.value == h.token
    ensures r.Err? ==> r.status == Unauthorized
  {
    match h
    case NoCredentials => Err(Unauthorized)
    case Bearer(t) => Ok(t)
  }

  /** The role gate: 401 when the token is missing, undecodable or expired;
      otherwise 403 when the role is absent, empty or not `requiredRole`;
      otherwise the payload's user id. */
  function ValidateAuth(h: AuthHeader, requiredRole: string, now: Time): (r: Result<Option<UserId>>)
    ensures r.Err? ==> r.status in {Unauthorized, Forbidden}
  {
    match BearerCredentials(h)
    case Err(_) => Err(Unauthorized)
    case Ok(t) =>
      match Decode(t, now)
      case Err(_) => Err(Unauthorized)
      case Ok(p) =>
        if p.role.None? || p.role.value == "" || p.role.value != requiredRole then Err(Forbidden)
        else Ok(p.userId)
  }

  // ---- Properties ----

  /** The complete decision, with the 401 checks ahead of the 403 check. */
  lemma ValidateAuthDecision(h: AuthHeader, requiredRole: string, now: Time)
    ensures ValidateAuth(h, requiredRole, now) == Err(Unauthorized) <==>
              h.NoCredentials? || !h.token.signatureOk || h.token.payload.exp <= now
    ensures ValidateAuth(h, requiredRole, now) == Err(Forbidden) <==>
              h.Bearer? && h.token.signatureOk && now < h.token.payload.exp
              && (h.token.payload.role != Some(requiredRole) || requiredRole == "")
    ensures ValidateAuth(h, requiredRole, now).Ok? ==>
              h.Bearer? && requiredRole != "" && h.token.payload.role == Some(requiredRole) && ValidateAuth(h, requiredRole, now).value == h.token.payload.userId
  {
  }

  /** A token fresh from sign-in passes the gate for the user's own role for
      60 minutes and yields the user's id. */
  lemma IssuedTokenAccepted(user: User, issued: Time, now: Time)
    requires issued <= now < issued + TokenLifetime
    ensures ValidateAuth(Bearer(CreateAccessToken(user, issued)), RoleName(user.info.role), now) == Ok(Some(user.userId))
  {
  }

  /** The same token at the other gate is 403, and after 60 minutes it is 401
      at every gate. */
  lemma IssuedTokenLimits(user: User, issued: Time, now: Time, other: Role)
    requires other != user.info.role
    ensures issued <= now < issued + TokenLifetime ==>
              ValidateAuth(Bearer(CreateAccessToken(user, issued)), RoleName(other), now) == Err(Forbidden)
    ensures now >= issued + TokenLifetime ==>
              forall role :: ValidateAuth(Bearer(CreateAccessToken(user, issued)), role, now) == Err(Unauthorized)
  {
    assert RoleName(other) != RoleName(user.info.role);
  }
}
