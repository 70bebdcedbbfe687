/**
 * Sign-in. The api backend (`api/backend/.../auth.service.ts`) mails
 * single-use magic links: a token row per link, issued, spent once,
 * expired by the clock and swept by a cleanup job. The older backend
 * (`backend/.../auth.service.ts`) logs in with a username or email and a
 * password.
 *
 * JWT signing is not modelled: a successful sign-in yields the admin the
 * tokens would be signed for, and JWT verification of a refresh token is
 * the parameter `subject` (the `sub` claim, or None when verification
 * throws). bcrypt is the pair `hash` / `matches`; `randomBytes` is the
 * parameter `random`; the clock is `now` in milliseconds.
 */
module Auth {
  import opened Wrappers
  import opened Strings
  import Seqs
  import Meetings
  import Admins
  import ApiAdmins

  // ---------------------------------------------------------------------
  // Magic links (api backend)
  // ---------------------------------------------------------------------

  datatype LinkToken = LinkToken(token: string, adminId: string, expiresAt: int, isUsed: bool, usedAt: Option<int>)

  datatype LinkState = LinkState(admins: seq<ApiAdmins.AdminUser>, tokens: seq<LinkToken>)

  const MinuteMs := 60000
  const DefaultExpiryMinutes := 10
  const SentMsg := "If an account exists with this email, a magic link has been sent."

  /** `configured || 10`: an unset or zero setting falls back to ten minutes. */
  function ExpiryMinutes(configured: Option<int>): (m: int)
    ensures m != 0
    ensures Meetings.Truthy(configured) ==> m == configured.value
    ensures !Meetings.Truthy(configured) ==> m == DefaultExpiryMinutes
  {
    if Meetings.Truthy(configured) then configured.value else DefaultExpiryMinutes
  }

  /** `update({ adminId, isUsed: false }, { isUsed: true })`: spend every open link of one admin. */
  function SpendAll(tokens: seq<LinkToken>, adminId: string): (r: seq<LinkToken>)
    ensures |r| == |tokens|
    ensures forall i :: 0 <= i < |tokens| ==>
      r[i] == if tokens[i].adminId == adminId then tokens[i].(isUsed := true) else tokens[i]
  {
    seq(|tokens|, i requires 0 <= i < |tokens| =>
      if tokens[i].adminId == adminId then tokens[i].(isUsed := true) else tokens[i])
  }

  /** What `randomBytes(32).toString('hex')` produces. */
  predicate HexToken(t: string) {
    |t| == 64 && AllLowerHex(t)
  }

  datatype Issued = Issued(state: LinkState, message: string)

  /**
   * `requestMagicLink`: the same answer whether or not the email belongs
   * to anyone. Only an active admin gets a link: first every open link of
   * theirs is spent, then a fresh one expiring `ExpiryMinutes` from now is
   * added. Mailing the link is not modelled.
   */
  function RequestMagicLink(st: LinkState, email: string, now: int, configured: Option<int>, random: string): (r: Issued)
    requires HexToken(random)
    ensures r.message == SentMsg
    ensures r.state.admins == st.admins
    ensures var i := ApiAdmins.FindByEmail(st.admins, email);
            i.None? || !st.admins[i.value].isActive ==> r.state == st
    ensures var i := ApiAdmins.FindByEmail(st.admins, email);
            i.Some? && st.admins[i.value].isActive ==>
              var id := st.admins[i.value].id;
              r.state.tokens == SpendAll(st.tokens, id)
                + [LinkToken(random, id, now + ExpiryMinutes(configured) * MinuteMs, false, None)]
  {
    match ApiAdmins.FindByEmail(st.admins, email)
    case None => Issued(st, SentMsg)
    case Some(i) =>
      var admin := st.admins[i];
      if !admin.isActive then Issued(st, SentMsg)
      else
        var link := LinkToken(random, admin.id, now + ExpiryMinutes(configured) * MinuteMs, false, None);
        Issued(st.(tokens := SpendAll(st.tokens, admin.id) + [link]), SentMsg)
  }

  /** How many unspent links an admin holds. */
  function OpenLinks(tokens: seq<LinkToken>, adminId: string): nat
    decreases |tokens|
  {
    if |tokens| == 0 then 0
    else OpenLinks(tokens[..|tokens| - 1], adminId)
         + (if !tokens[|tokens| - 1].isUsed && tokens[|tokens| - 1].adminId == adminId then 1 else 0)
  }

  lemma {:induction false} SpendAllCloses(tokens: seq<LinkToken>, adminId: string, other: string)
    ensures OpenLinks(SpendAll(tokens, adminId), adminId) == 0
    ensures other != adminId ==> OpenLinks(SpendAll(tokens, adminId), other) == OpenLinks(tokens, other)
    decreases |tokens|
  {
    if |tokens| > 0 {
      var init := tokens[..|tokens| - 1];
      SpendAllCloses(init, adminId, other);
      assert SpendAll(tokens, adminId)[..|tokens| - 1] == SpendAll(init, adminId);
    }
  }

  /** Every admin holds at most one unspent link. */
  ghost predicate OneOpenLinkEach(tokens: seq<LinkToken>) {
    forall a :: OpenLinks(tokens, a) <= 1
  }

  /**
   * Issuing a link leaves the admin exactly one open link (the new one)
   * and nobody else's count changes, so at most one open link per admin
   * is kept.
   */
  lemma RequestLeavesOneOpenLink(st: LinkState, email: string, now: int, configured: Option<int>, random: string)
    requires HexToken(random)
    requires OneOpenLinkEach(st.tokens)
    ensures OneOpenLinkEach(RequestMagicLink(st, email, now, configured, random).state.tokens)
    ensures var i := ApiAdmins.FindByEmail(st.admins, email);
            i.Some? && st.admins[i.value].isActive ==>
              OpenLinks(RequestMagicLink(st, email, now, configured, random).state.tokens, st.admins[i.value].id) == 1
  {
    var i := ApiAdmins.FindByEmail(st.admins, email);
    if i.Some? && st.admins[i.value].isActive {
      var id := st.admins[i.value].id;
      var t := RequestMagicLink(st, email, now, configured, random).state.tokens;
      var spent := SpendAll(st.tokens, id);
      assert t[..|t| - 1] == spent;
      forall a ensures OpenLinks(t, a) <= 1 && (a == id ==> OpenLinks(t, a) == 1) {
        SpendAllCloses(st.tokens, id, a);
      }
    }
  }

  /** `findOne({ where: { token } })`: the first row with that token. */
  function FindToken(tokens: seq<LinkToken>, token: string): (o: Option<nat>)
    ensures o.Some? ==> o.value < |tokens| && tokens[o.value].token == token
    ensures o.Some? ==> forall i :: 0 <= i < o.value ==> tokens[i].token != token
    ensures o.None? <==> forall i :: 0 <= i < |tokens| ==> tokens[i].token != token
    decreases |tokens|
  {
    if |tokens| == 0 then None
    else if tokens[0].token == token then Some(0)
    else
      match FindToken(tokens[1..], token)
      case None => None
      case Some(i) => Some(i + 1)
  }

  const InvalidLinkMsg := "Invalid or expired magic link"
  const UsedLinkMsg := "This magic link has already been used"
  const ExpiredLinkMsg := "This magic link has expired"
  const DeactivatedMsg := "Account is deactivated"

  /** `new Date() > expiresAt`: a link is still good at its expiry instant. */
  predicate Expired(t: LinkToken, now: int) {
    now > t.expiresAt
  }

  /** A link is good up to and including its expiry instant, and once expired it stays expired. */
  lemma ExpiryIsFinal(t: LinkToken, now: int, later: int)
    ensures !Expired(t, t.expiresAt)
    ensures Expired(t, now) && now <= later ==> Expired(t, later)
  {
  }

  /** The signed-in user the response carries. */
  datatype LinkUser = LinkUser(id: string, email: string, fullName: Option<string>, role: Admins.Role)

  datatype Verified = Verified(state: LinkState, user: LinkUser)

  /** The `admin` relation of a token row: its active owner, if there is one. */
  predicate OwnerActive(admins: seq<ApiAdmins.AdminUser>, adminId: string) {
    var o := ApiAdmins.FindById(admins, adminId);
    o.Some? && admins[o.value].isActive
  }

  /**
   * `verifyMagicLink`: refuses an unknown link, then a spent one, then an
   * expired one, then one whose admin is gone or deactivated, all as
   * Unauthorized. Otherwise the link is spent at `now`, the admin's last
   * login is stamped and the admin is signed in.
   */
  function VerifyMagicLink(st: LinkState, token: string, now: int): (r: Result<Verified, HttpError>)
    ensures r.Err? ==> r.error.Unauthorized?
    ensures FindToken(st.tokens, token).None? ==> r == Err(Unauthorized(InvalidLinkMsg))
    ensures var i := FindToken(st.tokens, token);
            i.Some? ==>
              var t := st.tokens[i.value];
              && (t.isUsed ==> r == Err(Unauthorized(UsedLinkMsg)))
              && (!t.isUsed && Expired(t, now) ==> r == Err(Unauthorized(ExpiredLinkMsg)))
              && (!t.isUsed && !Expired(t, now) && !OwnerActive(st.admins, t.adminId) ==>
                    r == Err(Unauthorized(DeactivatedMsg)))
              && (r.Ok? <==> !t.isUsed && !Expired(t, now) && OwnerActive(st.admins, t.adminId))
    ensures r.Ok? ==>
      var i := FindToken(st.tokens, token).value;
      var t := st.tokens[i];
      && r.value.state.tokens == st.tokens[i := t.(isUsed := true, usedAt := Some(now))]
      && r.value.state.admins == ApiAdmins.UpdateLastLogin(st.admins, t.adminId, now)
      && r.value.user.id == t.adminId
    ensures r.Ok? ==>
      var t := st.tokens[FindToken(st.tokens, token).value];
      && ApiAdmins.FindById(st.admins, t.adminId).Some?
      && var a := st.admins[ApiAdmins.FindById(st.admins, t.adminId).value];
         && a.id == t.adminId
         && r.value.user.email == a.email && r.value.user.fullName == a.fullName && r.value.user.role == a.role
  {
    match FindToken(st.tokens, token)
    case None => Err(Unauthorized(InvalidLinkMsg))
    case Some(i) =>
      var t := st.tokens[i];
      if t.isUsed then Err(Unauthorized(UsedLinkMsg))
      else if Expired(t, now) then Err(Unauthorized(ExpiredLinkMsg))
      else if !OwnerActive(st.admins, t.adminId) then Err(Unauthorized(DeactivatedMsg))
      else
        var a := st.admins[ApiAdmins.FindById(st.admins, t.adminId).value];
        var st' := LinkState(ApiAdmins.UpdateLastLogin(st.admins, t.adminId, now),
                             st.tokens[i := t.(isUsed := true, usedAt := Some(now))]);
        Ok(Verified(st', LinkUser(a.id, a.email, a.fullName, a.role)))
  }

  /** A link works once: verifying it again, at any time, is refused as already used. */
  lemma SecondVerifyFails(st: LinkState, token: string, now: int, later: int)
    requires VerifyMagicLink(st, token, now).Ok?
    ensures VerifyMagicLink(VerifyMagicLink(st, token, now).value.state, token, later) == Err(Unauthorized(UsedLinkMsg))
  {
    var i := FindToken(st.tokens, token).value;
    var tokens' := VerifyMagicLink(st, token, now).value.state.tokens;
    assert tokens'[i].token == token;
    assert forall k :: 0 <= k < i ==> tokens'[k] == st.tokens[k];
  }

  /** `cleanupExpiredTokens`: delete the rows with `expiresAt < now`. */
  function CleanupExpiredTokens(st: LinkState, now: int): (r: LinkState)
    ensures r.admins == st.admins
    ensures forall t :: t in r.tokens <==> t in st.tokens && !Expired(t, now)
  {
    st.(tokens := Seqs.Keep(st.tokens, (t: LinkToken) => t.expiresAt >= now))
  }

  function TokenKey(t: LinkToken): string {
    t.token
  }

  /** The `token` column is unique. */
  predicate TokensUnique(tokens: seq<LinkToken>) {
    Seqs.DistinctBy(tokens, TokenKey)
  }

  /**
   * Cleanup and verify draw the same line: a link survives the sweep at
   * `now` exactly when verify at `now` would not call it expired. In
   * particular a link whose expiry is `now` itself survives and still
   * signs its admin in.
   */
  lemma CleanupMatchesVerify(st: LinkState, token: string, now: int)
    requires TokensUnique(st.tokens)
    requires FindToken(st.tokens, token).Some?
    ensures var t := st.tokens[FindToken(st.tokens, token).value];
            var after := CleanupExpiredTokens(st, now);
            && (t in after.tokens <==> !Expired(t, now))
            && (t in after.tokens ==> (VerifyMagicLink(after, token, now).Ok? <==> VerifyMagicLink(st, token, now).Ok?))
            && (t in after.tokens && VerifyMagicLink(st, token, now).Err? ==>
                  VerifyMagicLink(after, token, now) == VerifyMagicLink(st, token, now))
            && (t.expiresAt == now && !t.isUsed && OwnerActive(st.admins, t.adminId) ==>
                  VerifyMagicLink(after, token, now).Ok?)
  {
    var t := st.tokens[FindToken(st.tokens, token).value];
    var after := CleanupExpiredTokens(st, now);
    if t in after.tokens {
      Seqs.KeepDistinct(st.tokens, (t: LinkToken) => t.expiresAt >= now, TokenKey);
      var j :| 0 <= j < |after.tokens| && after.tokens[j] == t;
      var k := FindToken(after.tokens, token).value;
      assert after.tokens[k] in st.tokens;
      assert k == j;
    }
  }

  /**
   * `refreshTokens` (both backends): whatever goes wrong (a token that
   * does not verify, an admin that is gone or deactivated) comes out as
   * the same Unauthorized. On success the admin the new tokens are signed
   * for is returned.
   */
  function RefreshLinkTokens(admins: seq<ApiAdmins.AdminUser>, subject: Option<string>): (r: Result<ApiAdmins.AdminUser, HttpError>)
    ensures r.Err? ==> r.error == Unauthorized(InvalidRefreshMsg)
    ensures r.Ok? <==> subject.Some? && OwnerActive(admins, subject.value)
    ensures r.Ok? ==> r.value in admins && r.value.id == subject.value && r.value.isActive
  {
    match subject
    case None => Err(Unauthorized(InvalidRefreshMsg))
    case Some(sub) =>
      match ApiAdmins.FindOne(admins, sub)
      case Err(_) => Err(Unauthorized(InvalidRefreshMsg))
      case Ok(a) =>
        if !a.isActive then Err(Unauthorized(InvalidRefreshMsg))
        else Ok(a)
  }

  const InvalidRefreshMsg := "Invalid refresh token"

  // ---------------------------------------------------------------------
  // Password login (older backend)
  // ---------------------------------------------------------------------

  /**
   * `validateUser`: the login is looked up as a username, and only when
   * no username matches, as an email. The admin found is returned only if
   * the password matches its hash.
   */
  function ValidateUser(admins: seq<Admins.AdminUser>, login: string, password: string,
                        matches: (string, string) -> bool): (r: Option<Admins.AdminUser>)
    ensures r.Some? ==> r.value in admins && matches(password, r.value.passwordHash)
    ensures r.Some? ==> r.value.username == login || r.value.email == login
    ensures Admins.Taken(admins, Admins.ByUsername, login) ==>
      var a := admins[Admins.FindBy(admins, Admins.ByUsername, login).value];
      r == if matches(password, a.passwordHash) then Some(a) else None
    ensures !Admins.Taken(admins, Admins.ByUsername, login) && Admins.Taken(admins, Admins.ByEmail, login) ==>
      var a := admins[Admins.FindBy(admins, Admins.ByEmail, login).value];
      r == if matches(password, a.passwordHash) then Some(a) else None
    ensures !Admins.Taken(admins, Admins.ByUsername, login) && !Admins.Taken(admins, Admins.ByEmail, login) ==> r.None?
  {
    var found := match Admins.FindBy(admins, Admins.ByUsername, login)
      case Some(i) => Some(i)
      case None => Admins.FindBy(admins, Admins.ByEmail, login);
    match found
    case None => None
    case Some(i) => if matches(password, admins[i].passwordHash) then Some(admins[i]) else None
  }

  /**
   * A username match hides an email match: when one admin's username is
   * another's email, a login with that string only ever tries the first
   * admin's password.
   */
  lemma UsernameShadowsEmail(admins: seq<Admins.AdminUser>, i: nat, j: nat, password: string,
                             matches: (string, string) -> bool)
    requires Admins.Valid(admins)
    requires i < |admins| && j < |admins|
    requires admins[i].username == admins[j].email
    requires !matches(password, admins[i].passwordHash)
    ensures ValidateUser(admins, admins[i].username, password, matches).None?
  {
    var k := Admins.FindBy(admins, Admins.ByUsername, admins[i].username).value;
    assert admins[k].username == admins[i].username;
    if k != i {
      assert false;
    }
  }

  /** The user the login response carries. */
  datatype LoginUser = LoginUser(id: string, username: string, email: string, fullName: Option<string>, role: Admins.Role)

  datatype Session = Session(admins: seq<Admins.AdminUser>, user: LoginUser)

  const BadCredentialsMsg := "Invalid credentials"

  /**
   * `login`: bad credentials are refused before a deactivated account is,
   * so the deactivation is revealed only to someone who knows the
   * password. A successful login stamps the last login.
   */
  function Login(admins: seq<Admins.AdminUser>, login: string, password: string,
                 matches: (string, string) -> bool, now: int): (r: Result<Session, HttpError>)
    ensures ValidateUser(admins, login, password, matches).None? ==> r == Err(Unauthorized(BadCredentialsMsg))
    ensures var v := ValidateUser(admins, login, password, matches);
            v.Some? && !v.value.isActive ==> r == Err(Unauthorized(DeactivatedMsg))
    ensures r.Ok? <==> var v := ValidateUser(admins, login, password, matches); v.Some? && v.value.isActive
    ensures r.Ok? ==>
      var a := ValidateUser(admins, login, password, matches).value;
      && r.value.user == LoginUser(a.id, a.username, a.email, a.fullName, a.role)
      && r.value.admins == Admins.UpdateLastLogin(admins, a.id, now)
  {
    match ValidateUser(admins, login, password, matches)
    case None => Err(Unauthorized(BadCredentialsMsg))
    case Some(a) =>
      if !a.isActive then Err(Unauthorized(DeactivatedMsg))
      else Ok(Session(Admins.UpdateLastLogin(admins, a.id, now), LoginUser(a.id, a.username, a.email, a.fullName, a.role)))
  }

  /** A deactivated admin who gives a wrong password hears only "Invalid credentials". */
  lemma DeactivatedWrongPasswordIsBadCredentials(admins: seq<Admins.AdminUser>, i: nat, password: string,
                                                 matches: (string, string) -> bool, now: int)
    requires Admins.Valid(admins)
    requires i < |admins| && !admins[i].isActive
    requires !matches(password, admins[i].passwordHash)
    ensures Login(admins, admins[i].username, password, matches, now) == Err(Unauthorized(BadCredentialsMsg))
  {
    var k := Admins.FindBy(admins, Admins.ByUsername, admins[i].username).value;
    assert k == i;
  }

  /** Backend `refreshTokens`: the same collapse of every failure into one Unauthorized. */
  function RefreshTokens(admins: seq<Admins.AdminUser>, subject: Option<string>): (r: Result<Admins.View, HttpError>)
    ensures r.Err? ==> r.error == Unauthorized(InvalidRefreshMsg)
    ensures r.Ok? <==> subject.Some? && Admins.Taken(admins, Admins.ById, subject.value)
                       && admins[Admins.FindBy(admins, Admins.ById, subject.value).value].isActive
    ensures r.Ok? ==> r.value.id == subject.value && r.value.isActive
  {
    match subject
    case None => Err(Unauthorized(InvalidRefreshMsg))
    case Some(sub) =>
      match Admins.FindOne(admins, sub)
      case Err(_) => Err(Unauthorized(InvalidRefreshMsg))
      case Ok(v) =>
        if !v.isActive then Err(Unauthorized(InvalidRefreshMsg))
        else Ok(v)
  }

  const UserNotFoundMsg := "User not found"
  const WrongPasswordMsg := "Current password is incorrect"

  /**
   * `changePassword` as intended: an unknown user is Unauthorized, a wrong
   * current password is BadRequest; otherwise the new password is stored
   * hashed. The update hook hashes only a non-empty password, so an empty
   * one leaves the hash as it was. The program itself does not reach the
   * hook (see ChangePasswordAsWritten); the rest of the model uses this
   * corrected definition.
   */
  function ChangePassword(admins: seq<Admins.AdminUser>, userId: string, current: string, newPassword: string,
                          matches: (string, string) -> bool, hash: string -> string): (r: Result<seq<Admins.AdminUser>, HttpError>)
    ensures !Admins.Taken(admins, Admins.ById, userId) ==> r == Err(Unauthorized(UserNotFoundMsg))
    ensures var i := Admins.FindBy(admins, Admins.ById, userId);
            i.Some? ==>
              && (!matches(current, admins[i.value].passwordHash) ==> r == Err(BadRequest(WrongPasswordMsg)))
              && (r.Ok? <==> matches(current, admins[i.value].passwordHash))
              && (r.Ok? ==> r.value == admins[i.value := admins[i.value].(passwordHash :=
                    if newPassword != "" then hash(newPassword) else admins[i.value].passwordHash)])
  {
    match Admins.FindBy(admins, Admins.ById, userId)
    case None => Err(Unauthorized(UserNotFoundMsg))
    case Some(i) =>
      var a := admins[i];
      if !matches(current, a.passwordHash) then Err(BadRequest(WrongPasswordMsg))
      else if newPassword == "" then Ok(admins)
      else Ok(admins[i := a.(passwordHash := hash(newPassword))])
  }

  /**
   * `changePassword` as the program runs it: the new password is written
   * to the entity's `password` property, which is not a column. The
   * repository's save finds no changed column, issues no update, and so
   * never runs the `@BeforeUpdate` hook that would hash it: success leaves
   * every stored hash as it was. The refusals are those of the intended
   * definition.
   */
  function ChangePasswordAsWritten(admins: seq<Admins.AdminUser>, userId: string, current: string, newPassword: string,
                                   matches: (string, string) -> bool): (r: Result<seq<Admins.AdminUser>, HttpError>)
    ensures forall hash: string -> string ::
      && (r.Ok? <==> ChangePassword(admins, userId, current, newPassword, matches, hash).Ok?)
      && (r.Err? ==> r == ChangePassword(admins, userId, current, newPassword, matches, hash))
    ensures r.Ok? ==> r.value == admins
  {
    match Admins.FindBy(admins, Admins.ById, userId)
    case None => Err(Unauthorized(UserNotFoundMsg))
    case Some(i) =>
      if !matches(current, admins[i].passwordHash) then Err(BadRequest(WrongPasswordMsg))
      else Ok(admins)
  }

  /**
   * The discrepancy: after an accepted change as written, the old password
   * still logs the admin in by username and a new password the old hash
   * does not accept is refused, where the intended definition (with a
   * bcrypt that accepts what it hashed) lets exactly the new one in.
   */
  lemma ChangedPasswordIsIgnored(admins: seq<Admins.AdminUser>, i: nat, current: string, newPassword: string,
                                 matches: (string, string) -> bool, hash: string -> string)
    requires Admins.Valid(admins) && i < |admins|
    requires matches(current, admins[i].passwordHash)
    requires newPassword != "" && !matches(newPassword, admins[i].passwordHash)
    requires forall p :: matches(p, hash(p))
    ensures ChangePasswordAsWritten(admins, admins[i].id, current, newPassword, matches) == Ok(admins)
    ensures ValidateUser(admins, admins[i].username, current, matches) == Some(admins[i])
    ensures ValidateUser(admins, admins[i].username, newPassword, matches).None?
    ensures var after := ChangePassword(admins, admins[i].id, current, newPassword, matches, hash).value;
            ValidateUser(after, admins[i].username, newPassword, matches) == Some(after[i])
  {
    var k := Admins.FindBy(admins, Admins.ById, admins[i].id).value;
    assert Admins.Key(admins[k], Admins.ById) == admins[i].id;
    assert k == i;
    var u := Admins.FindBy(admins, Admins.ByUsername, admins[i].username).value;
    assert Admins.Key(admins[u], Admins.ByUsername) == admins[i].username;
    assert u == i;
    ChangedPasswordLogsIn(admins, admins[i].id, current, newPassword, matches, hash);
  }

  /**
   * With a bcrypt that accepts what it hashed, a changed password is the
   * one that now logs the admin in (by username), and the keys stay
   * unique.
   */
  lemma ChangedPasswordLogsIn(admins: seq<Admins.AdminUser>, userId: string, current: string, newPassword: string,
                              matches: (string, string) -> bool, hash: string -> string)
    requires Admins.Valid(admins)
    requires forall p :: matches(p, hash(p))
    requires newPassword != ""
    requires ChangePassword(admins, userId, current, newPassword, matches, hash).Ok?
    ensures var after := ChangePassword(admins, userId, current, newPassword, matches, hash).value;
            var i := Admins.FindBy(admins, Admins.ById, userId).value;
            && Admins.Valid(after)
            && ValidateUser(after, admins[i].username, newPassword, matches) == Some(after[i])
  {
    var after := ChangePassword(admins, userId, current, newPassword, matches, hash).value;
    var i := Admins.FindBy(admins, Admins.ById, userId).value;
    var login := admins[i].username;
    assert after == admins[i := admins[i].(passwordHash := hash(newPassword))];
    assert Admins.Key(after[i], Admins.ByUsername) == login;
    assert Admins.Taken(after, Admins.ByUsername, login);
    var k := Admins.FindBy(after, Admins.ByUsername, login).value;
    assert k == i;
    assert matches(newPassword, after[i].passwordHash);
  }
}
