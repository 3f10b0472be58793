/** The auth service as an object: the tables it updates, request by request. */
module AuthService {
  import opened Wrappers
  import opened Accounts

  class AuthService {
    const config: Config
    var users: seq<User>
    var sessions: seq<RefreshRow>
    var tokens: seq<AuthToken>

    constructor (config: Config)
      ensures this.config == config && Value() == State([], [], []) && Inv(Value())
    {
      this.config := config;
      users, sessions, tokens := [], [], [];
    }

    function Value(): State
      reads this
    {
      State(users, sessions, tokens)
    }

    /** The bulk update: stamp the unrevoked rows that match, and count them. */
    method Revoke(p: RefreshRow -> bool, now: int) returns (count: nat)
      modifies this
      ensures Value() == old(Value()).(sessions := RevokeWhere(old(sessions), p, now))
      ensures count == |sessions| - |Untouched(old(sessions), p)|
    {
      var rows := sessions;
      count := 0;
      for i := 0 to |rows|
        invariant |sessions| == |rows| && users == old(users) && tokens == old(tokens)
        invariant forall k :: 0 <= k < i ==> sessions[k] == RevokeWhere(rows, p, now)[k]
        invariant forall k :: i <= k < |rows| ==> sessions[k] == rows[k]
        invariant count == i - |Untouched(rows[..i], p)|
      {
        assert rows[..i + 1][..i] == rows[..i];
        if p(rows[i]) && rows[i].revokedAt.None? {
          sessions := sessions[i := Revoked(rows[i], now)];
          count := count + 1;
        }
      }
      assert rows[..|rows|] == rows;
    }

    method IssueFor(user: string, m: Minted) returns (r: Reply)
      modifies this
      ensures (Value(), r) == IssueSession(config, old(Value()), user, m)
      ensures Opened(config, old(Value()), Value(), user, r, m)
           || (r == Refused(NoMembership) && Value() == old(Value()))
    {
      var found := First(users, UserWithId(user));
      if found.None? { return Refused(NoMembership); }
      var tenant := users[found.value].tenant;
      if tenant.None? { return Refused(NoMembership); }
      sessions := sessions + [NewRow(config, user, tenant.value, m.id, m)];
      return Issued(user, tenant.value, m.cleartext);
    }

    method RegisterUser(email: string, password: string, workspace: string, tenant: string, m: Minted)
      returns (r: Reply)
      modifies this
      ensures (Value(), r) == RegisterStep(config, old(Value()), email, password, workspace, tenant, m)
      ensures Registered(config, old(Value()), email, password, workspace, tenant, m, Value(), r)
    {
      RegisterStepRegisters(config, Value(), email, password, workspace, tenant, m);
      var address := Address(email);
      if !config.strong(password, [address, workspace]) { return Refused(WeakPassword); }
      if First(users, UserWithEmail(address)).Some? { return Refused(EmailAlreadyTaken); }
      users := users + [User(m.id, address, config.hashPassword(password), true, false, Some(tenant))];
      tokens := tokens + [AuthToken(m.id, EmailVerify, config.hmac(m.cleartext), m.now + config.verifyTtl, None)];
      return Done;
    }

    method LogIn(email: string, password: string, mfaActive: bool, m: Minted) returns (r: Reply)
      modifies this
      ensures (Value(), r) == LoginStep(config, old(Value()), email, password, mfaActive, m)
      ensures if r.Issued? then Opened(config, old(Value()), Value(), r.user, r, m) && !mfaActive
              else Value() == old(Value())
    {
      var found := First(users, UserWithEmail(Address(email)));
      if found.None? { return Refused(InvalidCredentials); }
      var user := users[found.value];
      if !config.checkPassword(password, user.passwordHash) { return Refused(InvalidCredentials); }
      if !user.active { return Refused(AccountInactive); }
      if !user.verified { return Refused(AccountUnverified); }
      if mfaActive { return Challenge(user.id); }
      r := IssueFor(user.id, m);
    }

    method Rotate(cleartext: string, m: Minted) returns (r: Reply)
      modifies this
      ensures (Value(), r) == RefreshStep(config, old(Value()), cleartext, m)
      ensures match r
              case Issued(_, _, _) => exists i: nat :: RotatedAt(config, old(Value()), Value(), cleartext, r, m, i)
              case Refused(RefreshTokenReuse) =>
                exists i: nat :: SweptAt(config, old(Value()), Value(), cleartext, m.now, i)
              case _ => Value() == old(Value())
    {
      if cleartext == "" { return Refused(RefreshTokenInvalid); }
      var found := First(sessions, WithHash(config.hmac(cleartext)));
      if found.None? { return Refused(RefreshTokenInvalid); }
      var row := sessions[found.value];
      if row.revokedAt.Some? {
        var _ := Revoke(OfUser(row.user), m.now);
        assert SweptAt(config, old(Value()), Value(), cleartext, m.now, found.value);
        return Refused(RefreshTokenReuse);
      }
      if row.expiresAt < m.now { return Refused(RefreshTokenExpired); }
      sessions := sessions[found.value := Revoked(row, m.now)];
      sessions := sessions + [NewRow(config, row.user, row.tenant, row.chain, m)];
      r := Issued(row.user, row.tenant, m.cleartext);
      assert RotatedAt(config, old(Value()), Value(), cleartext, r, m, found.value);
    }

    method LogOut(cookie: Option<string>, user: string, now: int) returns (r: Reply)
      modifies this
      ensures (Value(), r) == LogoutStep(config, old(Value()), cookie, user, now)
      ensures r == Done && users == old(users) && tokens == old(tokens) && |sessions| == |old(sessions)|
      ensures forall i :: 0 <= i < |sessions| ==>
                var row := old(sessions)[i];
                sessions[i] == if cookie.Some? && cookie.value != "" && row.hash == config.hmac(cookie.value)
                                  && row.user == user && row.revokedAt.None?
                               then row.(revokedAt := Some(now)) else row
    {
      if cookie.Some? && cookie.value != "" {
        var _ := Revoke(OfCookie(config.hmac(cookie.value), user), now);
      }
      return Done;
    }

    method RevokeOne(user: string, id: string, now: int) returns (r: Reply)
      modifies this
      ensures (Value(), r) == RevokeSessionStep(old(Value()), user, id, now)
      ensures users == old(users) && tokens == old(tokens) && |sessions| == |old(sessions)|
      ensures forall i :: 0 <= i < |sessions| ==>
                var row := old(sessions)[i];
                sessions[i] == if row.id == id && row.user == user && row.revokedAt.None?
                               then row.(revokedAt := Some(now)) else row
      ensures r == Changed(exists i :: 0 <= i < |sessions| && old(sessions)[i].id == id && old(sessions)[i].user == user
                                       && old(sessions)[i].revokedAt.None?)
    {
      FirstFinds(sessions, (row: RefreshRow) => OfId(id, user)(row) && row.revokedAt.None?);
      var count := Revoke(OfId(id, user), now);
      MatchesIsTouched(old(sessions), OfId(id, user));
      return Changed(count > 0);
    }

    method RequestPasswordReset(email: string, m: Minted) returns (r: Reply)
      modifies this
      ensures (Value(), r) == RequestResetStep(config, old(Value()), email, m)
      ensures ResetRequested(config, old(Value()), email, m, Value(), r)
    {
      RequestResetStepRequests(config, Value(), email, m);
      var found := First(users, UserWithEmail(Address(email)));
      if found.Some? {
        var user := users[found.value].id;
        tokens := tokens + [AuthToken(user, PasswordReset, config.hmac(m.cleartext), m.now + config.resetTtl, None)];
      }
      return Done;
    }

    /** Mark a one-shot token used, or say why it cannot be; returns the user it is for. */
    method ConsumeToken(cleartext: string, kind: TokenKind, now: int) returns (r: Result<string, AuthError>)
      modifies this
      ensures match Consume(config, old(tokens), cleartext, kind, now)
              case Err(e) => r == Err(e) && Value() == old(Value())
              case Ok(i) =>
                r == Ok(old(tokens)[i].user) && Value() == old(Value()).(tokens := Used(old(tokens), i, now))
      ensures users == old(users) && sessions == old(sessions)
      ensures match r
              case Ok(user) => exists i: nat :: MarkedAt(config, old(tokens), tokens, cleartext, kind, now, user, i)
              case Err(_) => tokens == old(tokens)
    {
      if cleartext == "" { return Err(AuthTokenInvalid); }
      var found := First(tokens, TokenWith(config.hmac(cleartext), kind));
      if found.None? { return Err(AuthTokenInvalid); }
      var row := tokens[found.value];
      if row.usedAt.Some? { return Err(AuthTokenAlreadyUsed); }
      if row.expiresAt < now { return Err(AuthTokenExpired); }
      tokens := tokens[found.value := row.(usedAt := Some(now))];
      assert MarkedAt(config, old(tokens), tokens, cleartext, kind, now, row.user, found.value);
      return Ok(row.user);
    }

    method ConfirmEmail(token: string, now: int) returns (r: Reply)
      modifies this
      ensures (Value(), r) == VerifyEmailStep(config, old(Value()), token, now)
      ensures EmailConfirmed(config, old(Value()), token, now, Value(), r)
    {
      VerifyEmailStepConfirms(config, Value(), token, now);
      var user := ConsumeToken(token, EmailVerify, now);
      if user.Err? { return Refused(user.error); }
      users := MarkVerified(users, user.value);
      return Verified(user.value);
    }

    method ChangePassword(token: string, password: string, now: int) returns (r: Reply)
      modifies this
      ensures (Value(), r) == ResetPasswordStep(config, old(Value()), token, password, now)
      ensures r == Done || (r.Refused? && users == old(users) && sessions == old(sessions))
      ensures r == Done ==> exists u: nat, i: nat :: ResetAt(config, old(Value()), Value(), token, password, now, u, i)
    {
      var owner := ConsumeToken(token, PasswordReset, now);
      if owner.Err? { return Refused(owner.error); }
      var found := First(users, UserWithId(owner.value));
      if found.None? { return Refused(AuthTokenInvalid); }
      var user := users[found.value];
      if !config.strong(password, [user.email]) { return Refused(WeakPassword); }
      ghost var i: nat :| MarkedAt(config, old(tokens), tokens, token, PasswordReset, now, owner.value, i);
      users := users[found.value := user.(passwordHash := config.hashPassword(password))];
      var _ := Revoke(OfUser(user.id), now);
      assert ResetAt(config, old(Value()), Value(), token, password, now, found.value, i);
      return Done;
    }

    /** A route: run the service, commit what it did unless it refused. Keeps every chain in order, loses no row
        and clears no revocation or use. */
    method Handle(q: Request, m: Minted) returns (r: Reply)
      requires Inv(Value()) && Fresh(config, Value(), m)
      modifies this
      ensures Value() == Committed(config, old(Value()), q, m) && r == Answer(config, old(Value()), q, m)
      ensures Inv(Value()) && Later(old(sessions), sessions) && LaterTokens(old(tokens), tokens)
    {
      RequestKeepsSessions(config, Value(), q, m);
      RequestKeepsTokens(config, Value(), q, m);
      RequestKeepsUsers(config, Value(), q, m);
      var users0, sessions0, tokens0 := users, sessions, tokens;
      match q {
        case Register(email, password, workspace, tenant) => r := RegisterUser(email, password, workspace, tenant, m);
        case Login(email, password, mfaActive) => r := LogIn(email, password, mfaActive, m);
        case FinishMfaLogin(user) => r := IssueFor(user, m);
        case Refresh(cleartext) => r := Rotate(cleartext, m);
        case Logout(cookie, user) => r := LogOut(cookie, user, m.now);
        case RevokeSession(user, id) => r := RevokeOne(user, id, m.now);
        case RequestReset(email) => r := RequestPasswordReset(email, m);
        case VerifyEmail(token) => r := ConfirmEmail(token, m.now);
        case ResetPassword(token, password) => r := ChangePassword(token, password, m.now);
      }
      if r.Refused? {
        users, sessions, tokens := users0, sessions0, tokens0;
      }
    }
  }

  /** The rows a bulk update leaves alone. */
  function Untouched(rows: seq<RefreshRow>, p: RefreshRow -> bool): seq<RefreshRow> {
    if rows == [] then [] else
      var n := |rows| - 1;
      if p(rows[n]) && rows[n].revokedAt.None? then Untouched(rows[..n], p) else Untouched(rows[..n], p) + [rows[n]]
  }

  /** Some row is changed exactly when some row matches. */
  lemma {:induction false} MatchesIsTouched(rows: seq<RefreshRow>, p: RefreshRow -> bool)
    ensures |Untouched(rows, p)| <= |rows|
    ensures |Untouched(rows, p)| < |rows| <==> Matches(rows, p)
  {
    var q := (r: RefreshRow) => p(r) && r.revokedAt.None?;
    FirstFinds(rows, q);
    if rows != [] {
      var n := |rows| - 1;
      MatchesIsTouched(rows[..n], p);
      FirstFinds(rows[..n], q);
      if Matches(rows[..n], p) {
        assert q(rows[First(rows[..n], q).value]);
      }
    }
  }
}
