/** The user record of the sign-in service and its login update. Times are
    abstract instants in seconds. */
module AuthModels {
  import opened Wrappers

  /** The profile fields the identity provider supplies. */
  datatype Profile = Profile(
    feishuUserId: string,
    name: string,
    enName: Option<string>,
    email: Option<string>,
    mobile: Option<string>,
    avatarUrl: Option<string>,
    tenantKey: string)

  /** A row of `users`. */
  class User {
    var id: string
    var feishuUserId: string
    var name: string
    var enName: Option<string>
    var email: Option<string>
    var mobile: Option<string>
    var avatarUrl: Option<string>
    var tenantKey: string
    var accessToken: Option<string>
    var refreshToken: Option<string>
    var tokenExpiresAt: Option<int>
    var isActive: bool
    var lastLoginAt: Option<int>
    var loginCount: int
    var createdAt: int

    /** The profile part of the record. */
    function ProfileOf(): Profile
      reads this
    {
      Profile(feishuUserId, name, enName, email, mobile, avatarUrl, tenantKey)
    }

    /** `User(**fields)`: the given profile and token, the column defaults for
        the rest: active, no logins yet. */
    constructor (id: string, p: Profile, accessToken: string, expiresAt: int, now: int)
      ensures this.id == id && ProfileOf() == p
      ensures this.accessToken == Some(accessToken) && tokenExpiresAt == Some(expiresAt)
      ensures isActive && loginCount == 0 && lastLoginAt == None && refreshToken == None && createdAt == now
    {
      this.id := id;
      feishuUserId := p.feishuUserId;
      name := p.name;
      enName := p.enName;
      email := p.email;
      mobile := p.mobile;
      avatarUrl := p.avatarUrl;
      tenantKey := p.tenantKey;
      this.accessToken := Some(accessToken);
      refreshToken := None;
      tokenExpiresAt := Some(expiresAt);
      isActive := true;
      lastLoginAt := None;
      loginCount := 0;
      createdAt := now;
    }

    /** The `setattr` loop over the provider's fields, token included. */
    method SetProfile(p: Profile, accessToken: string, expiresAt: int)
      modifies this
      ensures ProfileOf() == p && this.accessToken == Some(accessToken) && tokenExpiresAt == Some(expiresAt)
      ensures id == old(id) && refreshToken == old(refreshToken) && isActive == old(isActive)
      ensures lastLoginAt == old(lastLoginAt) && loginCount == old(loginCount) && createdAt == old(createdAt)
    {
      feishuUserId := p.feishuUserId;
      name := p.name;
      enName := p.enName;
      email := p.email;
      mobile := p.mobile;
      avatarUrl := p.avatarUrl;
      tenantKey := p.tenantKey;
      this.accessToken := Some(accessToken);
      tokenExpiresAt := Some(expiresAt);
      assert ProfileOf() == Profile(p.feishuUserId, p.name, p.enName, p.email, p.mobile, p.avatarUrl, p.tenantKey);
    }

    /** `update_login`: the new token and expiry, the login time, one more
        login; nothing else changes. */
    method UpdateLogin(accessToken: string, expiresAt: int, utcNow: int)
      modifies this
      ensures this.accessToken == Some(accessToken) && tokenExpiresAt == Some(expiresAt)
      ensures lastLoginAt == Some(utcNow) && loginCount == old(loginCount) + 1
      ensures ProfileOf() == old(ProfileOf()) && id == old(id) && refreshToken == old(refreshToken)
      ensures isActive == old(isActive) && createdAt == old(createdAt)
    {
      this.accessToken := Some(accessToken);
      tokenExpiresAt := Some(expiresAt);
      lastLoginAt := Some(utcNow);
      loginCount := loginCount + 1;
    }
  }

  /** The two ways the service looks a user up. */
  datatype Key = ByFeishuId(feishuUserId: string) | ByAccessToken(token: string)

  predicate Selects(key: Key, u: User)
    reads u
  {
    match key
    case ByFeishuId(id) => u.feishuUserId == id
    case ByAccessToken(t) => u.accessToken == Some(t)
  }

  /** `query(User).filter(...).first()`: the position of the first row the
      key selects, if any. */
  function First(rows: seq<User>, key: Key): (r: Option<nat>)
    reads set u | u in rows
    ensures r.Some? ==> r.value < |rows| && Selects(key, rows[r.value])
    ensures r.Some? ==> forall j :: 0 <= j < r.value ==> !Selects(key, rows[j])
    ensures r.None? <==> forall j :: 0 <= j < |rows| ==> !Selects(key, rows[j])
  {
    if rows == [] then None
    else if Selects(key, rows[0]) then Some(0)
    else
      match First(rows[1..], key)
      case None => None
      case Some(i) => Some(i + 1)
  }

  /** `feishu_user_id` is unique, and a row holding a token holds its expiry,
      as every write of the service sets the two together. */
  predicate RowsValid(rows: seq<User>)
    reads set u | u in rows
  {
    (forall i, j :: 0 <= i < j < |rows| ==> rows[i].feishuUserId != rows[j].feishuUserId)
    && (forall i :: 0 <= i < |rows| ==> rows[i].accessToken.Some? ==> rows[i].tokenExpiresAt.Some?)
  }

  /** A row with a new id and an expiry beside its token keeps the table valid. */
  lemma RowsValidAppend(rows: seq<User>, u: User)
    requires u.accessToken.Some? ==> u.tokenExpiresAt.Some?
    requires RowsValid(rows) && forall j :: 0 <= j < |rows| ==> rows[j].feishuUserId != u.feishuUserId
    ensures RowsValid(rows + [u])
  {
    var s := rows + [u];
    assert forall j :: 0 <= j < |rows| ==> s[j] == rows[j];
  }

  /** The `users` table. */
  class UserTable {
    var rows: seq<User>

    predicate Valid()
      reads this, set u | u in rows
    {
      RowsValid(rows)
    }

    constructor ()
      ensures rows == [] && Valid()
    {
      rows := [];
    }
  }
}
