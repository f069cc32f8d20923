/** Sign-in through the Feishu identity provider: the callback that turns an
    authorization code into a stored user, the token refresh, and the check
    every protected endpoint runs. The two provider replies, the configured
    tenant and the clocks are inputs. */
module Oauth {
  import opened Wrappers
  import opened AuthModels

  const TokenExpireHours := 168
  /** The token lifetime in seconds. */
  const TokenLifetime := TokenExpireHours * 3600

  /** `datetime.utcnow()` and `datetime.now()` at one instant, in seconds. */
  datatype Clock = Clock(utc: int, local: int)

  /** The expiry the service stores: the UTC clock plus the lifetime. */
  function ExpiresAt(c: Clock): int {
    c.utc + TokenLifetime
  }

  /** The check of both readers of an expiry: strictly before the UTC clock. */
  predicate Expired(expiresAt: int, utcNow: int) {
    expiresAt < utcNow
  }

  /** The expiry as the callback and the refresh compute it: the local clock
      plus the lifetime, later compared with the UTC clock. */
  function ExpiresAtAsWritten(c: Clock): int {
    c.local + TokenLifetime
  }

  /** On a server eight hours ahead of UTC a token is still accepted 175 hours
      after it was issued; on one five hours behind it is refused after 164. */
  lemma AsWrittenLifetimeFollowsTimeZone()
    ensures !Expired(ExpiresAtAsWritten(Clock(0, 8 * 3600)), 175 * 3600)
    ensures Expired(ExpiresAtAsWritten(Clock(0, -5 * 3600)), 164 * 3600)
  {
  }

  /** With one clock on both sides a token lives exactly the lifetime. */
  lemma TokenLifetimeExact(issued: Clock, utcNow: int)
    ensures !Expired(ExpiresAt(issued), utcNow) <==> utcNow <= issued.utc + TokenExpireHours * 3600
  {
  }

  /** A member of a JSON object: missing, null or a string. */
  datatype Field = Absent | Null | Text(s: string)

  /** `.get(key)`. */
  function Get(f: Field): Option<string> {
    if f.Text? then Some(f.s) else None
  }

  /** Whether `.get(key)` is truthy. */
  predicate Truthy(f: Field) {
    f.Text? && f.s != []
  }

  /** The members of `data` in the user-info reply that the callback reads. */
  datatype UserFields = UserFields(
    name: Field,
    enName: Field,
    email: Field,
    mobile: Field,
    avatarUrl: Field,
    tenantKey: Field,
    userId: Field)

  /** Whether a `data` object is non-empty. */
  predicate HasMember(d: UserFields) {
    !d.name.Absent? || !d.enName.Absent? || !d.email.Absent? || !d.mobile.Absent?
    || !d.avatarUrl.Absent? || !d.tenantKey.Absent? || !d.userId.Absent?
  }

  /** The token endpoint's reply: its status, whether its body is JSON, and
      `data.access_token` when that path exists. */
  datatype TokenReply = TokenReply(status: int, isJson: bool, accessToken: Option<string>)

  /** The user-info endpoint's reply: its status, whether its body is JSON,
      and its `data` object when there is one. */
  datatype UserReply = UserReply(status: int, isJson: bool, data: Option<UserFields>)

  /** The `error` parameter of the redirect back to the login page. */
  datatype LoginError = TokenFailed | UserInfoFailed | InvalidUserData | MissingUserData
                      | NoTenantKey | UnauthorizedOrg | AuthFailed

  function ErrorCode(e: LoginError): string {
    match e
    case TokenFailed => "token_failed"
    case UserInfoFailed => "user_info_failed"
    case InvalidUserData => "invalid_user_data"
    case MissingUserData => "missing_user_data"
    case NoTenantKey => "no_tenant_key"
    case UnauthorizedOrg => "unauthorized_org"
    case AuthFailed => "auth_failed"
  }

  /** Where a failed sign-in sends the browser. */
  function ErrorRedirect(frontendUrl: string, e: LoginError): (url: string)
    ensures url == frontendUrl + "/login?error=" + ErrorCode(e)
  {
    frontendUrl + "/login?error=" + ErrorCode(e)
  }

  /** The token reply is 200 JSON with an access token. */
  predicate TokenGranted(token: TokenReply) {
    token.isJson && token.status == 200 && token.accessToken.Some?
  }

  /** The user-info reply is 200 JSON whose `data` has a `name` member, so
      the logging of `data.name` does not raise. */
  predicate ProfileRead(reply: UserReply) {
    reply.isJson && reply.status == 200 && reply.data.Some? && !reply.data.value.name.Absent?
  }

  /** `name`, `email` and `tenant_key` are all truthy. */
  predicate Complete(d: UserFields) {
    Truthy(d.name) && Truthy(d.email) && Truthy(d.tenantKey)
  }

  /** What a verified sign-in yields: the provider's token and profile. */
  datatype Login = Login(accessToken: string, profile: Profile)

  /** The checks of the callback up to the database. A body that is not JSON,
      a missing path and a missing `user_id` raise, which the handler turns
      into `auth_failed`; a null `user_id` fails the non-null column at
      commit, with the same answer. The empty-`data` and missing-tenant
      branches follow checks that already exclude them and never answer. */
  function Verify(token: TokenReply, reply: UserReply, tenant: Option<string>): (r: Result<Login, LoginError>)
    ensures !token.isJson ==> r == Err(AuthFailed)
    ensures token.isJson && token.status != 200 ==> r == Err(TokenFailed)
    ensures r != Err(InvalidUserData) && r != Err(NoTenantKey)
    ensures token.isJson && token.status == 200 && token.accessToken.None? ==> r == Err(AuthFailed)
    ensures TokenGranted(token) && !reply.isJson ==> r == Err(AuthFailed)
    ensures TokenGranted(token) && reply.isJson && reply.status != 200 ==> r == Err(UserInfoFailed)
    ensures TokenGranted(token) && reply.isJson && reply.status == 200 && !ProfileRead(reply) ==> r == Err(AuthFailed)
    ensures TokenGranted(token) && ProfileRead(reply) && !Complete(reply.data.value) ==> r == Err(MissingUserData)
    ensures TokenGranted(token) && ProfileRead(reply) && Complete(reply.data.value) ==>
      (tenant != Some(reply.data.value.tenantKey.s) ==> r == Err(UnauthorizedOrg))
      && (tenant == Some(reply.data.value.tenantKey.s) && !reply.data.value.userId.Text? ==> r == Err(AuthFailed))
    ensures r.Ok? <==>
      (token.isJson && token.status == 200 && token.accessToken.Some?
      && reply.isJson && reply.status == 200 && reply.data.Some?
      && Truthy(reply.data.value.name) && Truthy(reply.data.value.email) && Truthy(reply.data.value.tenantKey)
      && tenant == Some(reply.data.value.tenantKey.s) && reply.data.value.userId.Text?)
    ensures r.Ok? ==>
      (var d := reply.data.value;
       r.value.accessToken == token.accessToken.value
       && r.value.profile == Profile(d.userId.s, d.name.s, Get(d.enName), Some(d.email.s), Get(d.mobile), Get(d.avatarUrl), d.tenantKey.s))
  {
    if !token.isJson then Err(AuthFailed)
    else if token.status != 200 then Err(TokenFailed)
    else if token.accessToken.None? then Err(AuthFailed)
    else if !reply.isJson then Err(AuthFailed)
    else if reply.status != 200 then Err(UserInfoFailed)
    else if reply.data.None? || reply.data.value.name.Absent? then Err(AuthFailed)
    else
      var d := reply.data.value;
      if !HasMember(d) then Err(InvalidUserData)
      else if !Truthy(d.name) || !Truthy(d.email) || !Truthy(d.tenantKey) then Err(MissingUserData)
      else if !Truthy(d.tenantKey) then Err(NoTenantKey)
      else if tenant != Some(d.tenantKey.s) then Err(UnauthorizedOrg)
      else if !d.userId.Text? then Err(AuthFailed)
      else
        Ok(Login(token.accessToken.value,
                 Profile(d.userId.s, d.name.s, Get(d.enName), Some(d.email.s), Get(d.mobile), Get(d.avatarUrl), d.tenantKey.s)))
  }

  /** Whether the record fits the column widths, which the commit enforces. */
  predicate Fits(login: Login) {
    var p := login.profile;
    |p.feishuUserId| <= 255 && |p.name| <= 255 && |p.tenantKey| <= 255 && |login.accessToken| <= 255
    && (p.enName.None? || |p.enName.value| <= 255)
    && (p.email.None? || |p.email.value| <= 255)
    && (p.mobile.None? || |p.mobile.value| <= 255)
    && (p.avatarUrl.None? || |p.avatarUrl.value| <= 1024)
  }

  /** The record of a user just signed in. */
  predicate SignedIn(u: User, login: Login, clock: Clock)
    reads u
  {
    u.ProfileOf() == login.profile && u.accessToken == Some(login.accessToken)
    && u.tokenExpiresAt == Some(ExpiresAt(clock)) && u.lastLoginAt == Some(clock.utc)
  }

  /** The `auth_data` the browser receives on success. */
  datatype AuthData = AuthData(
    id: string,
    name: string,
    enName: Option<string>,
    email: Option<string>,
    avatarUrl: Option<string>,
    tenantKey: string,
    feishuUserId: string,
    accessToken: string,
    expiresAt: int)

  /** A row found under its Feishu id stays found while no id changes. */
  lemma FirstAppend(rows: seq<User>, key: Key, u: User)
    requires First(rows, key).None? && Selects(key, u)
    ensures First(rows + [u], key) == Some(|rows|)
  {
    assert forall j :: 0 <= j < |rows| ==> (rows + [u])[j] == rows[j];
    assert (rows + [u])[|rows|] == u;
  }

  /** The sign-in of a user already stored at row `i`: the provider's fields
      and token are copied onto the row and `update_login` records the login. */
  method SignInExisting(table: UserTable, i: nat, login: Login, clock: Clock)
    requires table.Valid() && First(table.rows, ByFeishuId(login.profile.feishuUserId)) == Some(i)
    modifies table.rows[i]
    ensures table.Valid() && First(table.rows, ByFeishuId(login.profile.feishuUserId)) == Some(i)
    ensures SignedIn(table.rows[i], login, clock)
    ensures table.rows[i].loginCount == old(table.rows[i].loginCount) + 1
    ensures table.rows[i].id == old(table.rows[i].id) && table.rows[i].isActive == old(table.rows[i].isActive)
    ensures forall j :: 0 <= j < |table.rows| && j != i ==> table.rows[j] != table.rows[i]
  {
    var user := table.rows[i];
    var fid := login.profile.feishuUserId;
    forall j | 0 <= j < |table.rows| && j != i
      ensures table.rows[j] != user
    {
      assert table.rows[j].feishuUserId != table.rows[i].feishuUserId;
    }
    user.SetProfile(login.profile, login.accessToken, ExpiresAt(clock));
    user.UpdateLogin(login.accessToken, ExpiresAt(clock), clock.utc);
    assert forall j :: 0 <= j < |table.rows| ==> Selects(ByFeishuId(fid), table.rows[j]) == old(Selects(ByFeishuId(fid), table.rows[j]));
  }

  /** `User(**user_info)` with the login recorded: the provider's fields, the
      column defaults, and one login now. */
  method NewUser(login: Login, clock: Clock, newId: string) returns (u: User)
    ensures fresh(u) && SignedIn(u, login, clock)
    ensures u.id == newId && u.isActive && u.loginCount == 1 && u.createdAt == clock.utc
  {
    u := new User(newId, login.profile, login.accessToken, ExpiresAt(clock), clock.utc);
    u.lastLoginAt := Some(clock.utc);
    u.loginCount := 1;
  }

  /** The sign-in of a user not yet stored: the new row is appended. */
  method SignInNew(table: UserTable, login: Login, clock: Clock, newId: string) returns (u: User)
    requires table.Valid() && First(table.rows, ByFeishuId(login.profile.feishuUserId)).None?
    modifies table
    ensures fresh(u) && table.rows == old(table.rows) + [u]
    ensures table.Valid() && First(table.rows, ByFeishuId(login.profile.feishuUserId)) == Some(|old(table.rows)|)
    ensures SignedIn(u, login, clock)
    ensures u.id == newId && u.isActive && u.loginCount == 1 && u.createdAt == clock.utc
  {
    var fid := login.profile.feishuUserId;
    u := NewUser(login, clock, newId);
    FirstAppend(table.rows, ByFeishuId(fid), u);
    RowsValidAppend(table.rows, u);
    table.rows := table.rows + [u];
  }

  /** feishu_callback. A failed check answers its error and leaves the table
      alone, as does a record the commit refuses (`auth_failed` after the
      rollback). Otherwise the user under the provider's id is signed in
      again, or added; either way the table then finds that user under the
      id, signed in, and the browser receives its fields, the token and the
      expiry, which is `ExpiresAt`, on the UTC clock. */
  method FeishuCallback(table: UserTable, token: TokenReply, reply: UserReply, tenant: Option<string>,
                        clock: Clock, newId: string)
    returns (r: Result<AuthData, LoginError>)
    requires table.Valid()
    modifies table, set u | u in table.rows
    ensures table.Valid()
    ensures Verify(token, reply, tenant).Err? ==>
      r == Err(Verify(token, reply, tenant).error) && table.rows == old(table.rows)
      && forall u :: u in old(table.rows) ==> unchanged(u)
    ensures Verify(token, reply, tenant).Ok? && !Fits(Verify(token, reply, tenant).value) ==>
      r == Err(AuthFailed) && table.rows == old(table.rows)
      && forall u :: u in old(table.rows) ==> unchanged(u)
    ensures r.Ok? <==> Verify(token, reply, tenant).Ok? && Fits(Verify(token, reply, tenant).value)
    ensures r.Ok? ==>
      (var login := Verify(token, reply, tenant).value;
       var k := First(table.rows, ByFeishuId(login.profile.feishuUserId));
       k.Some? && SignedIn(table.rows[k.value], login, clock)
       && r.value == AuthData(table.rows[k.value].id, login.profile.name, login.profile.enName, login.profile.email,
                              login.profile.avatarUrl, login.profile.tenantKey, login.profile.feishuUserId,
                              login.accessToken, ExpiresAt(clock)))
  {
    var v := Verify(token, reply, tenant);
    if v.Err? {
      return Err(v.error);
    }
    var login := v.value;
    if !Fits(login) {
      return Err(AuthFailed);
    }
    var k := First(table.rows, ByFeishuId(login.profile.feishuUserId));
    var user: User;
    if k.Some? {
      SignInExisting(table, k.value, login, clock);
      user := table.rows[k.value];
    } else {
      user := SignInNew(table, login, clock, newId);
    }
    r := Ok(AuthData(user.id, user.name, user.enName, user.email, user.avatarUrl, user.tenantKey,
                     user.feishuUserId, login.accessToken, ExpiresAt(clock)));
  }

  /** How `get_current_user` refuses: a 401 with a code and a message, or the
      `TypeError` of comparing a missing expiry, a server error. */
  datatype Denied = Unauthorized(code: string, message: string) | Crashed

  /** get_current_user: no token, a token no row holds, and a token past its
      expiry are refused in that order; otherwise the first row holding the
      token is the user. */
  function CurrentUser(table: UserTable, token: Option<string>, utcNow: int): (r: Result<User, Denied>)
    reads table, set u | u in table.rows
    ensures (token.None? || token.value == []) <==> r == Err(Unauthorized("NO_TOKEN", "No access token provided"))
    ensures r == Err(Unauthorized("INVALID_TOKEN", "Invalid access token")) <==>
      (token.Some? && token.value != [] && forall j :: 0 <= j < |table.rows| ==> table.rows[j].accessToken != token)
    ensures r.Ok? ==>
      r.value in table.rows && r.value.accessToken == token
      && r.value.tokenExpiresAt.Some? && !Expired(r.value.tokenExpiresAt.value, utcNow)
    ensures table.Valid() ==> r != Err(Crashed)
    ensures token.Some? && token.value != [] && First(table.rows, ByAccessToken(token.value)).Some? ==>
      (var u := table.rows[First(table.rows, ByAccessToken(token.value)).value];
       (u.tokenExpiresAt.None? ==> r == Err(Crashed))
       && (u.tokenExpiresAt.Some? && Expired(u.tokenExpiresAt.value, utcNow) ==>
             r == Err(Unauthorized("TOKEN_EXPIRED", "Token has expired")))
       && (u.tokenExpiresAt.Some? && !Expired(u.tokenExpiresAt.value, utcNow) ==> r == Ok(u)))
  {
    if token.None? || token.value == [] then Err(Unauthorized("NO_TOKEN", "No access token provided"))
    else
      match First(table.rows, ByAccessToken(token.value))
      case None => Err(Unauthorized("INVALID_TOKEN", "Invalid access token"))
      case Some(i) =>
        var u := table.rows[i];
        match u.tokenExpiresAt
        case None => Err(Crashed)
        case Some(e) =>
          if Expired(e, utcNow) then Err(Unauthorized("TOKEN_EXPIRED", "Token has expired")) else Ok(u)
  }

  /** A token accepted at some instant is accepted at every earlier one. */
  lemma AcceptedEarlier(table: UserTable, token: Option<string>, t: int, s: int)
    requires s <= t && CurrentUser(table, token, t).Ok?
    ensures CurrentUser(table, token, s) == CurrentUser(table, token, t)
  {
  }

  /** How `refresh_token` refuses: a status and the `error` text. */
  datatype Refused = Refused(status: int, error: string)

  /** refresh_token: a token no row holds and an expired one are refused with
      401; a row without an expiry raises, answered with 500; otherwise the
      row's expiry moves to `ExpiresAt(clock)`, which is returned, and the
      token is then accepted until that instant. */
  method RefreshToken(table: UserTable, token: string, clock: Clock) returns (r: Result<int, Refused>)
    modifies set u | u in table.rows
    ensures table.rows == old(table.rows)
    ensures old(First(table.rows, ByAccessToken(token))).None? <==> r == Err(Refused(401, "Invalid token"))
    ensures r.Err? ==> forall u :: u in table.rows ==> unchanged(u)
    ensures old(First(table.rows, ByAccessToken(token))).Some? ==>
      (var i := old(First(table.rows, ByAccessToken(token))).value;
       (old(table.rows[i].tokenExpiresAt).None? ==> r == Err(Refused(500, "Token refresh failed")))
       && (old(table.rows[i].tokenExpiresAt).Some? && Expired(old(table.rows[i].tokenExpiresAt).value, clock.utc)
           ==> r == Err(Refused(401, "Token expired")))
       && (old(table.rows[i].tokenExpiresAt).Some? && !Expired(old(table.rows[i].tokenExpiresAt).value, clock.utc)
           ==> r == Ok(ExpiresAt(clock)) && table.rows[i].tokenExpiresAt == Some(ExpiresAt(clock))
               && table.rows[i].accessToken == old(table.rows[i].accessToken)
               && table.rows[i].ProfileOf() == old(table.rows[i].ProfileOf())
               && table.rows[i].loginCount == old(table.rows[i].loginCount)
               && forall j :: 0 <= j < |table.rows| && table.rows[j] != table.rows[i] ==> unchanged(table.rows[j])))
    ensures r.Ok? && token != [] ==> forall t :: t <= r.value ==> CurrentUser(table, Some(token), t).Ok?
  {
    var k := First(table.rows, ByAccessToken(token));
    if k.None? {
      return Err(Refused(401, "Invalid token"));
    }
    var user := table.rows[k.value];
    match user.tokenExpiresAt
    case None =>
      return Err(Refused(500, "Token refresh failed"));
    case Some(e) =>
      if Expired(e, clock.utc) {
        return Err(Refused(401, "Token expired"));
      }
      user.tokenExpiresAt := Some(ExpiresAt(clock));
      assert forall j :: 0 <= j < |table.rows| ==> Selects(ByAccessToken(token), table.rows[j]) == old(Selects(ByAccessToken(token), table.rows[j]));
      r := Ok(ExpiresAt(clock));
  }
}
