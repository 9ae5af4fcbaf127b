/** Authentication: registration of administrators, the login check chain,
    and the password-reset token lifecycle (issue, invalidate, consume,
    expire, purge) over the `password_reset_tokens` table. */
module Auth {
  import opened Common
  import opened Users

  /** A row of `password_reset_tokens`; `expiresAt` in milliseconds. */
  datatype ResetToken = ResetToken(token: string, userId: int, expiresAt: int, used: bool)

  /** One hour, the lifetime of a reset token. */
  const TokenLifetime: int := 60 * 60 * 1000

  /** The `user` object returned by register and login: no password. */
  datatype UserView = UserView(id: int, email: string, firstName: string, lastName: string, role: Role)

  /** The claims signed into the access token. */
  datatype Claims = Claims(sub: int, email: string, role: Role)

  /** The result of register and login: the claims of the access token and the user. */
  datatype Session = Session(claims: Claims, user: UserView)

  /** A response body of the reset endpoints. */
  datatype Reply = Reply(data: Option<string>, message: string)

  function View(u: UserRow): UserView
  {
    UserView(u.id, u.email, u.firstName, u.lastName, u.role)
  }

  function SessionOf(u: UserRow): (s: Session)
    ensures s.user.id == u.id && s.claims.sub == u.id && s.claims.role == u.role
  {
    Session(Claims(u.id, u.email, u.role), View(u))
  }

  /** The checks of `login` once the user has been looked up, in their order. */
  function LoginCheck(found: Option<UserRow>, password: string): (r: Result<Session>)
  {
    if found.None? then Err(Unauthorized("Invalid credentials"))
    else if !Compare(password, found.value.password) then Err(Unauthorized("Invalid credentials"))
    else if !found.value.isActive then Err(Unauthorized("Account is deactivated"))
    else Ok(SessionOf(found.value))
  }

  /** Login succeeds exactly for an active user with the right password. */
  lemma LoginSucceedsIff(found: Option<UserRow>, password: string)
    ensures LoginCheck(found, password).Ok? <==>
      found.Some? && Compare(password, found.value.password) && found.value.isActive
    ensures LoginCheck(found, password).Ok? <==>
      found.Some? && found.value.password == Hash(password) && found.value.isActive
    ensures LoginCheck(found, password).Ok? ==> LoginCheck(found, password).value.user == View(found.value)
  {
    if found.Some? {
      CompareIffHashOf(password, found.value.password);
    }
  }

  /** A wrong password is answered exactly like an unknown e-mail, whatever the account's state. */
  lemma WrongPasswordLooksUnknown(u: UserRow, password: string)
    requires !Compare(password, u.password)
    ensures LoginCheck(Some(u), password) == LoginCheck(None, password)
  {
  }

  /** "Account is deactivated" is only given to someone who knew the password. */
  lemma DeactivatedMeansRightPassword(found: Option<UserRow>, password: string)
    requires LoginCheck(found, password) == Err(Unauthorized("Account is deactivated"))
    ensures found.Some? && Compare(password, found.value.password) && !found.value.isActive
  {
  }

  /** The bulk `update({ userId, used: false }, { used: true })`. */
  function Invalidated(tokens: map<int, ResetToken>, userId: int): (r: map<int, ResetToken>)
    ensures r.Keys == tokens.Keys
  {
    map id | id in tokens ::
      if tokens[id].userId == userId && !tokens[id].used then tokens[id].(used := true) else tokens[id]
  }

  /** `delete({ expiresAt: LessThan(now) })`. */
  function Purged(tokens: map<int, ResetToken>, now: int): (r: map<int, ResetToken>)
  {
    map id | id in tokens && !(tokens[id].expiresAt < now) :: tokens[id]
  }

  /** After a purge no expired token is left, and every token that had not expired is kept as it was. */
  lemma PurgedKeepsLive(tokens: map<int, ResetToken>, now: int)
    ensures forall id :: id in Purged(tokens, now) ==> Purged(tokens, now)[id].expiresAt >= now
    ensures forall id :: id in tokens && tokens[id].expiresAt >= now ==>
      id in Purged(tokens, now) && Purged(tokens, now)[id] == tokens[id]
    ensures Purged(tokens, now).Keys <= tokens.Keys
  {
  }

  /** The unused tokens of one user. */
  function UnusedOf(tokens: map<int, ResetToken>, userId: int): set<int>
  {
    set id | id in tokens && tokens[id].userId == userId && !tokens[id].used
  }

  /** After the bulk update the user has no unused token, and other users' tokens are unchanged. */
  lemma InvalidatedClearsUser(tokens: map<int, ResetToken>, userId: int)
    ensures UnusedOf(Invalidated(tokens, userId), userId) == {}
    ensures forall id :: id in tokens && tokens[id].userId != userId ==> Invalidated(tokens, userId)[id] == tokens[id]
    ensures forall id :: id in tokens ==>
      Invalidated(tokens, userId)[id].token == tokens[id].token
      && Invalidated(tokens, userId)[id].expiresAt == tokens[id].expiresAt
  {
  }

  /** The replies of the reset flow. */
  const MaybeSentMessage := "If the email exists, a password reset link has been sent"
  const SentMessage := "Password reset link has been sent to your email"
  const InvalidTokenMessage := "Invalid or expired reset token"
  const ResetDoneMessage := "Password has been reset successfully"

  class AuthService {
    var users: UsersService
    var tokens: map<int, ResetToken>
    var nextTokenId: int

    /** The user table is valid, token ids below `nextTokenId` are handed out,
        and no two unused tokens carry the same value. */
    ghost predicate Valid()
      reads this, users
    {
      users.Valid()
      && nextTokenId >= 1
      && (forall id :: id in tokens ==> 1 <= id < nextTokenId)
      && UnusedDistinct(tokens)
    }

    static ghost predicate UnusedDistinct(tokens: map<int, ResetToken>)
    {
      forall a, b ::
        (a in tokens && b in tokens && !tokens[a].used && !tokens[b].used && tokens[a].token == tokens[b].token)
        ==> a == b
    }

    /** Issuing a fresh token after the bulk update leaves that token as the
        user's only unused one, and unused token values stay distinct. */
    static lemma IssueAfterInvalidate(tokens: map<int, ResetToken>, id: int, issued: ResetToken)
      requires UnusedDistinct(tokens) && id !in tokens && !issued.used
      requires forall other :: other in tokens ==> tokens[other].token != issued.token
      ensures UnusedOf(Invalidated(tokens, issued.userId)[id := issued], issued.userId) == {id}
      ensures UnusedDistinct(Invalidated(tokens, issued.userId)[id := issued])
    {
      var invalidated := Invalidated(tokens, issued.userId);
      InvalidatedClearsUser(tokens, issued.userId);
      var after := invalidated[id := issued];
      assert UnusedOf(after, issued.userId) == UnusedOf(invalidated, issued.userId) + {id};
    }

    /** Some unused token carries this value. */
    ghost predicate Unused(token: string)
      reads this
    {
      exists id :: id in tokens && tokens[id].token == token && !tokens[id].used
    }

    constructor(users: UsersService)
      requires users.Valid()
      ensures Valid() && this.users == users && tokens == map[] && nextTokenId == 1
    {
      this.users := users;
      tokens := map[];
      nextTokenId := 1;
    }

    /** `register`: the requested role is overwritten with ADMIN before the user is created. */
    method Register(dto: NewUser, now: int) returns (r: Result<Session>)
      requires Valid()
      modifies users
      ensures Valid() && tokens == old(tokens)
      ensures old(users.EmailTaken(dto.email)) ==>
        r == Err(Conflict("Email already exists")) && users.table == old(users.table)
      ensures !old(users.EmailTaken(dto.email)) ==>
        r.Ok? && r.value.user.id !in old(users.table) && r.value.user.id in users.table
        && users.table == old(users.table)[r.value.user.id := users.table[r.value.user.id]]
      ensures r.Ok? ==>
        r.value.user.id in users.table
        && (var u := users.table[r.value.user.id];
            u.role == Admin && u.password == Hash(dto.password) && r.value == SessionOf(u) && u.email == dto.email)
    {
      var created := users.Create(dto.(role := Some(Admin)), now);
      if created.Err? {
        return Err(created.error);
      }
      r := Ok(SessionOf(created.value));
    }

    /** `login`: looks the e-mail up, then applies the checks in order. */
    method Login(email: string, password: string) returns (r: Result<Session>)
      requires Valid()
      ensures !users.EmailTaken(email) ==> r == Err(Unauthorized("Invalid credentials"))
      ensures users.EmailTaken(email) ==>
        exists id :: id in users.table && users.table[id].email == email
          && r == LoginCheck(Some(users.table[id]), password)
    {
      var found := users.FindByEmail(email);
      r := LoginCheck(found, password);
    }

    /** `forgotPassword`: for a known e-mail, every unused token of that user is
        marked used and one new token, valid for an hour, is added. */
    method ForgotPassword(email: string, token: string, now: int) returns (r: Reply)
      requires Valid()
      requires forall id :: id in tokens ==> tokens[id].token != token
      modifies this
      ensures Valid() && users == old(users)
      ensures !users.EmailTaken(email) ==>
        r == Reply(None, MaybeSentMessage)
        && tokens == old(tokens) && nextTokenId == old(nextTokenId)
      ensures users.EmailTaken(email) ==>
        r == Reply(Some(token), SentMessage)
        && nextTokenId == old(nextTokenId) + 1
        && (exists u :: u in users.table && users.table[u].email == email
              && tokens == Invalidated(old(tokens), u)[old(nextTokenId) := ResetToken(token, u, now + TokenLifetime, false)]
              && UnusedOf(tokens, u) == {old(nextTokenId)})
    {
      var found := users.FindByEmail(email);
      if found.None? {
        return Reply(None, MaybeSentMessage);
      }
      var user := found.value;
      IssueToken(user.id, token, now);
      r := Reply(Some(token), SentMessage);
    }

    /** The bulk `update({ userId, used: false }, { used: true })` followed by
        saving one new token that expires an hour from `now`. */
    method IssueToken(userId: int, token: string, now: int)
      requires Valid()
      requires forall id :: id in tokens ==> tokens[id].token != token
      modifies this
      ensures Valid() && users == old(users)
      ensures nextTokenId == old(nextTokenId) + 1
      ensures tokens == Invalidated(old(tokens), userId)[old(nextTokenId) := ResetToken(token, userId, now + TokenLifetime, false)]
      ensures UnusedOf(tokens, userId) == {old(nextTokenId)}
    {
      var invalidated := Invalidated(tokens, userId);
      var issued := ResetToken(token, userId, now + TokenLifetime, false);
      IssueAfterInvalidate(tokens, nextTokenId, issued);
      tokens := invalidated[nextTokenId := issued];
      nextTokenId := nextTokenId + 1;
    }

    /** `resetPassword`: an unused, unexpired token sets the user's password,
        is marked used, and every expired token is deleted. */
    method ResetPassword(token: string, newPassword: string, now: int) returns (r: Result<Reply>)
      requires Valid()
      modifies this, users
      ensures Valid() && users == old(users) && nextTokenId == old(nextTokenId)
      ensures !old(Unused(token)) ==>
        r == Err(BadRequest(InvalidTokenMessage))
        && tokens == old(tokens) && users.table == old(users.table)
      ensures old(Unused(token)) ==>
        exists id :: id in old(tokens) && old(tokens)[id].token == token && !old(tokens)[id].used
          && Outcome(r, id, old(tokens), old(users.table), newPassword, now, tokens, users.table)
      ensures r.Ok? ==> !Unused(token)
    {
      var id := FindUnused(token);
      if id.None? {
        return Err(BadRequest(InvalidTokenMessage));
      }
      var t := tokens[id.value];
      if now > t.expiresAt {
        r := Err(BadRequest("Reset token has expired"));
      } else {
        var updated := users.UpdatePassword(t.userId, newPassword);
        if updated.Err? {
          r := Err(updated.error);
        } else {
          var consumed := tokens[id.value := t.(used := true)];
          tokens := Purged(consumed, now);
          assert UnusedDistinct(tokens) by {
            assert UnusedDistinct(consumed);
          }
          r := Ok(Reply(None, ResetDoneMessage));
        }
      }
      assert Outcome(r, id.value, old(tokens), old(users.table), newPassword, now, tokens, users.table);
    }

    /** `findOne({ where: { token, used: false } })`: the id of an unused token with this value. */
    method FindUnused(token: string) returns (r: Option<int>)
      requires Valid()
      ensures r.None? <==> !Unused(token)
      ensures r.Some? ==> r.value in tokens && tokens[r.value].token == token && !tokens[r.value].used
    {
      if !exists id :: id in tokens && tokens[id].token == token && !tokens[id].used {
        return None;
      }
      var id :| id in tokens && tokens[id].token == token && !tokens[id].used;
      r := Some(id);
    }
  }

  /** What `resetPassword` does once it has found the unused token `id`:
      an expired token is refused; a token of a removed user fails in the
      password update; otherwise the password changes, the token is used and
      expired tokens are purged. Nothing changes on the error paths. */
  ghost predicate Outcome(r: Result<Reply>, id: int, tokens: map<int, ResetToken>, table: map<int, UserRow>,
                          newPassword: string, now: int,
                          tokens': map<int, ResetToken>, table': map<int, UserRow>)
    requires id in tokens
  {
    var t := tokens[id];
    if now > t.expiresAt then
      r == Err(BadRequest("Reset token has expired")) && tokens' == tokens && table' == table
    else if t.userId !in table then
      r == Err(NotFound("User not found")) && tokens' == tokens && table' == table
    else
      r == Ok(Reply(None, ResetDoneMessage))
      && table' == table[t.userId := table[t.userId].(password := Hash(newPassword))]
      && tokens' == Purged(tokens[id := t.(used := true)], now)
  }

  /** A token is still accepted at exactly its expiry instant. */
  lemma AcceptedAtExpiry(r: Result<Reply>, id: int, tokens: map<int, ResetToken>, table: map<int, UserRow>,
                         newPassword: string, tokens': map<int, ResetToken>, table': map<int, UserRow>)
    requires id in tokens && tokens[id].userId in table
    requires Outcome(r, id, tokens, table, newPassword, tokens[id].expiresAt, tokens', table')
    ensures r.Ok?
  {
  }
}
