/** Refresh-token sessions and one-shot tokens: what each request does to the tables, and when it is committed. */
module Accounts {
  import opened Wrappers
  import PythonText
  import Texts

  /** A `refresh_tokens` row. `chain` is not a column: it names the login the row descends from. */
  datatype RefreshRow = RefreshRow(id: string, user: string, tenant: string, hash: string, expiresAt: int,
                                   revokedAt: Option<int>, chain: string)

  datatype TokenKind = EmailVerify | PasswordReset

  datatype AuthToken = AuthToken(user: string, kind: TokenKind, hash: string, expiresAt: int, usedAt: Option<int>)

  datatype User = User(id: string, email: string, passwordHash: string, active: bool, verified: bool,
                       tenant: Option<string>)

  datatype State = State(users: seq<User>, sessions: seq<RefreshRow>, tokens: seq<AuthToken>)

  /** Hashing, the password rules and the lifetimes, as given. */
  datatype Config = Config(hmac: string -> string, hashPassword: string -> string,
                           checkPassword: (string, string) -> bool,
                           strong: (string, seq<string>) -> bool, refreshTtl: int, verifyTtl: int, resetTtl: int)

  /** A fresh row id and cleartext, and the time. */
  datatype Minted = Minted(id: string, cleartext: string, now: int)

  datatype AuthError =
    | EmailAlreadyTaken | InvalidCredentials | AccountInactive | AccountUnverified | NoMembership
    | RefreshTokenInvalid | RefreshTokenReuse | RefreshTokenExpired
    | AuthTokenInvalid | AuthTokenAlreadyUsed | AuthTokenExpired | WeakPassword

  /** `tenant` is the fresh workspace id, `mfaActive` what the second-factor table says. */
  datatype Request =
    | Register(email: string, password: string, workspace: string, tenant: string)
    | Login(email: string, password: string, mfaActive: bool)
    | FinishMfaLogin(user: string)
    | Refresh(cleartext: string)
    | Logout(cookie: Option<string>, user: string)
    | RevokeSession(user: string, id: string)
    | RequestReset(email: string)
    | VerifyEmail(token: string)
    | ResetPassword(token: string, newPassword: string)

  datatype Reply =
    | Issued(user: string, tenant: string, refreshToken: string)
    | Challenge(user: string)
    | Verified(user: string)
    | Changed(rows: bool)
    | Done
    | Refused(error: AuthError)

  // ---- lookups and updates ------------------------------------------------

  /** The first row that satisfies a query, by position. */
  function First<T>(rows: seq<T>, p: T -> bool): (r: Option<nat>)
    ensures r.Some? ==> r.value < |rows| && p(rows[r.value])
  {
    if rows == [] then None
    else if p(rows[0]) then Some(0)
    else match First(rows[1..], p)
         case None => None
         case Some(i) => Some(i + 1)
  }

  lemma {:induction false} FirstFinds<T>(rows: seq<T>, p: T -> bool)
    ensures match First(rows, p)
            case None => forall i :: 0 <= i < |rows| ==> !p(rows[i])
            case Some(n) => n < |rows| && p(rows[n]) && forall i :: 0 <= i < n ==> !p(rows[i])
  {
    if rows != [] && !p(rows[0]) {
      FirstFinds(rows[1..], p);
      forall i | 0 < i < |rows| ensures rows[i] == rows[1..][i - 1] { }
    }
  }

  function Revoked(r: RefreshRow, now: int): RefreshRow { r.(revokedAt := Some(now)) }

  /** `UPDATE refresh_tokens SET revoked_at = now WHERE p AND revoked_at IS NULL`. */
  function RevokeWhere(rows: seq<RefreshRow>, p: RefreshRow -> bool, now: int): (r: seq<RefreshRow>)
    ensures |r| == |rows|
  {
    seq(|rows|, i requires 0 <= i < |rows| =>
      if p(rows[i]) && rows[i].revokedAt.None? then Revoked(rows[i], now) else rows[i])
  }

  predicate Matches(rows: seq<RefreshRow>, p: RefreshRow -> bool) {
    First(rows, (r: RefreshRow) => p(r) && r.revokedAt.None?).Some?
  }

  function OfUser(user: string): RefreshRow -> bool { (r: RefreshRow) => r.user == user }

  function OfCookie(hash: string, user: string): RefreshRow -> bool {
    (r: RefreshRow) => r.hash == hash && r.user == user
  }

  function OfId(id: string, user: string): RefreshRow -> bool { (r: RefreshRow) => r.id == id && r.user == user }

  function WithHash(hash: string): RefreshRow -> bool { (r: RefreshRow) => r.hash == hash }

  function TokenWith(hash: string, kind: TokenKind): AuthToken -> bool {
    (t: AuthToken) => t.hash == hash && t.kind == kind
  }

  function UserWithId(id: string): User -> bool { (u: User) => u.id == id }

  function UserWithEmail(email: string): User -> bool { (u: User) => u.email == email }

  // ---- the requests, up to the end of their transaction -------------------

  function NewRow(c: Config, user: string, tenant: string, chain: string, m: Minted): RefreshRow {
    RefreshRow(m.id, user, tenant, c.hmac(m.cleartext), m.now + c.refreshTtl, None, chain)
  }

  /** Mint a session for a user whose credentials were verified. */
  function IssueSession(c: Config, s: State, user: string, m: Minted): (State, Reply) {
    match First(s.users, UserWithId(user))
    case None => (s, Refused(NoMembership))
    case Some(i) =>
      match s.users[i].tenant
      case None => (s, Refused(NoMembership))
      case Some(tenant) =>
        (s.(sessions := s.sessions + [NewRow(c, user, tenant, m.id, m)]), Issued(user, tenant, m.cleartext))
  }

  /** One unrevoked row, the first of a new chain, was added for `user`; it holds the hash of the token handed out,
      and nothing else changed. */
  ghost predicate Opened(c: Config, before: State, after: State, user: string, r: Reply, m: Minted) {
    && r.Issued? && r.user == user && after.users == before.users && after.tokens == before.tokens
    && |after.sessions| == |before.sessions| + 1 && after.sessions[..|before.sessions|] == before.sessions
    && var row := after.sessions[|before.sessions|];
       row.user == user && row.tenant == r.tenant && row.revokedAt.None? && row.chain == row.id == m.id
       && row.hash == c.hmac(r.refreshToken) && row.expiresAt == m.now + c.refreshTtl
  }

  /** Live row `i` of the token was revoked and its successor added, in the same chain and for the same user. */
  ghost predicate RotatedAt(c: Config, before: State, after: State, cleartext: string, r: Reply, m: Minted, i: nat) {
    && r.Issued? && after.users == before.users && after.tokens == before.tokens
    && i < |before.sessions| && |after.sessions| == |before.sessions| + 1
    && var row, next := before.sessions[i], after.sessions[|before.sessions|];
       && row.hash == c.hmac(cleartext) && row.revokedAt.None? && row.expiresAt >= m.now
       && after.sessions[..|before.sessions|] == before.sessions[i := row.(revokedAt := Some(m.now))]
       && next.chain == row.chain && next.user == row.user == r.user && next.tenant == row.tenant == r.tenant
       && next.revokedAt.None? && next.hash == c.hmac(r.refreshToken)
       && next.id == m.id && next.expiresAt == m.now + c.refreshTtl
  }

  /** Row `i` of the token was revoked already; now every row of its user is, and no other row has changed. */
  ghost predicate SweptAt(c: Config, before: State, after: State, cleartext: string, now: int, i: nat) {
    && after.users == before.users && after.tokens == before.tokens
    && i < |before.sessions| && before.sessions[i].hash == c.hmac(cleartext) && before.sessions[i].revokedAt.Some?
    && EndedFor(before.sessions, after.sessions, before.sessions[i].user, now)
  }

  /** The user's live rows are revoked now, and every other row is as before. */
  ghost predicate EndedFor(before: seq<RefreshRow>, after: seq<RefreshRow>, user: string, now: int) {
    && |after| == |before|
    && forall k :: 0 <= k < |before| ==>
         after[k] == if before[k].user == user && before[k].revokedAt.None? then before[k].(revokedAt := Some(now))
                     else before[k]
  }

  /** Token `i`, unused and unexpired, was marked used, and no other token has changed. */
  ghost predicate MarkedAt(c: Config, before: seq<AuthToken>, after: seq<AuthToken>, cleartext: string, kind: TokenKind,
                           now: int, user: string, i: nat) {
    && i < |before| && before[i].hash == c.hmac(cleartext) && before[i].kind == kind && before[i].user == user
    && before[i].usedAt.None? && before[i].expiresAt >= now && after == before[i := before[i].(usedAt := Some(now))]
  }

  /** User `u`, whose token `i` this was, has the new password and no session left. */
  ghost predicate ResetAt(c: Config, before: State, after: State, token: string, password: string, now: int, u: nat,
                          i: nat)
  {
    && u < |before.users|
    && after.users == before.users[u := before.users[u].(passwordHash := c.hashPassword(password))]
    && EndedFor(before.sessions, after.sessions, before.users[u].id, now)
    && MarkedAt(c, before.tokens, after.tokens, token, PasswordReset, now, before.users[u].id, i)
  }

  function Address(email: string): string { Texts.Lower(PythonText.Strip(email)) }

  function RegisterStep(c: Config, s: State, email: string, password: string, workspace: string, tenant: string,
                        m: Minted): (State, Reply)
  {
    var address := Address(email);
    if !c.strong(password, [address, workspace]) then (s, Refused(WeakPassword))
    else if First(s.users, UserWithEmail(address)).Some? then (s, Refused(EmailAlreadyTaken))
    else
      (s.(users := s.users + [User(m.id, address, c.hashPassword(password), true, false, Some(tenant))],
          tokens := s.tokens + [AuthToken(m.id, EmailVerify, c.hmac(m.cleartext), m.now + c.verifyTtl, None)]), Done)
  }

  function LoginStep(c: Config, s: State, email: string, password: string, mfaActive: bool, m: Minted): (State, Reply) {
    match First(s.users, UserWithEmail(Address(email)))
    case None => (s, Refused(InvalidCredentials))
    case Some(i) =>
      var user := s.users[i];
      if !c.checkPassword(password, user.passwordHash) then (s, Refused(InvalidCredentials))
      else if !user.active then (s, Refused(AccountInactive))
      else if !user.verified then (s, Refused(AccountUnverified))
      else if mfaActive then (s, Challenge(user.id))
      else IssueSession(c, s, user.id, m)
  }

  /** Rotate a refresh token; a token already revoked revokes every session of its user. */
  function RefreshStep(c: Config, s: State, cleartext: string, m: Minted): (State, Reply) {
    if cleartext == "" then (s, Refused(RefreshTokenInvalid)) else
      match First(s.sessions, WithHash(c.hmac(cleartext)))
      case None => (s, Refused(RefreshTokenInvalid))
      case Some(i) =>
        var row := s.sessions[i];
        if row.revokedAt.Some?
          then (s.(sessions := RevokeWhere(s.sessions, OfUser(row.user), m.now)), Refused(RefreshTokenReuse))
        else if row.expiresAt < m.now then (s, Refused(RefreshTokenExpired))
        else
          (s.(sessions := s.sessions[i := Revoked(row, m.now)] + [NewRow(c, row.user, row.tenant, row.chain, m)]),
           Issued(row.user, row.tenant, m.cleartext))
  }

  function LogoutStep(c: Config, s: State, cookie: Option<string>, user: string, now: int): (State, Reply) {
    if cookie.Some? && cookie.value != ""
    then (s.(sessions := RevokeWhere(s.sessions, OfCookie(c.hmac(cookie.value), user), now)), Done)
    else (s, Done)
  }

  function RevokeSessionStep(s: State, user: string, id: string, now: int): (State, Reply) {
    (s.(sessions := RevokeWhere(s.sessions, OfId(id, user), now)), Changed(Matches(s.sessions, OfId(id, user))))
  }

  function RequestResetStep(c: Config, s: State, email: string, m: Minted): (State, Reply) {
    match First(s.users, UserWithEmail(Address(email)))
    case None => (s, Done)
    case Some(i) =>
      var token := AuthToken(s.users[i].id, PasswordReset, c.hmac(m.cleartext), m.now + c.resetTtl, None);
      (s.(tokens := s.tokens + [token]), Done)
  }

  /** The row a one-shot token unlocks, or why it does not. */
  function Consume(c: Config, tokens: seq<AuthToken>, cleartext: string, kind: TokenKind, now: int)
      : (r: Result<nat, AuthError>)
    ensures r.Ok? ==>
              r.value < |tokens| && TokenWith(c.hmac(cleartext), kind)(tokens[r.value]) && tokens[r.value].usedAt.None?
  {
    if cleartext == "" then Err(AuthTokenInvalid) else
      match First(tokens, TokenWith(c.hmac(cleartext), kind))
      case None => Err(AuthTokenInvalid)
      case Some(i) =>
        if tokens[i].usedAt.Some? then Err(AuthTokenAlreadyUsed)
        else if tokens[i].expiresAt < now then Err(AuthTokenExpired)
        else Ok(i)
  }

  function Used(tokens: seq<AuthToken>, i: nat, now: int): (r: seq<AuthToken>)
    requires i < |tokens|
    ensures |r| == |tokens|
  {
    tokens[i := tokens[i].(usedAt := Some(now))]
  }

  function MarkVerified(users: seq<User>, id: string): seq<User> {
    seq(|users|, i requires 0 <= i < |users| => if users[i].id == id then users[i].(verified := true) else users[i])
  }

  function VerifyEmailStep(c: Config, s: State, cleartext: string, now: int): (State, Reply) {
    match Consume(c, s.tokens, cleartext, EmailVerify, now)
    case Err(e) => (s, Refused(e))
    case Ok(i) =>
      (s.(tokens := Used(s.tokens, i, now), users := MarkVerified(s.users, s.tokens[i].user)),
       Verified(s.tokens[i].user))
  }

  /** Consume the token, change the password, revoke every session. The token is marked before the password is
      checked. */
  function ResetPasswordStep(c: Config, s: State, cleartext: string, password: string, now: int): (State, Reply) {
    match Consume(c, s.tokens, cleartext, PasswordReset, now)
    case Err(e) => (s, Refused(e))
    case Ok(i) =>
      var marked := s.(tokens := Used(s.tokens, i, now));
      match First(s.users, UserWithId(s.tokens[i].user))
      case None => (marked, Refused(AuthTokenInvalid))
      case Some(u) =>
        var user := s.users[u];
        if !c.strong(password, [user.email]) then (marked, Refused(WeakPassword))
        else
          (marked.(users := s.users[u := user.(passwordHash := c.hashPassword(password))],
                   sessions := RevokeWhere(s.sessions, OfUser(user.id), now)), Done)
  }

  /** The transaction a request leaves pending. */
  function Pending(c: Config, s: State, q: Request, m: Minted): (State, Reply) {
    match q
    case Register(email, password, workspace, tenant) => RegisterStep(c, s, email, password, workspace, tenant, m)
    case Login(email, password, mfaActive) => LoginStep(c, s, email, password, mfaActive, m)
    case FinishMfaLogin(user) => IssueSession(c, s, user, m)
    case Refresh(cleartext) => RefreshStep(c, s, cleartext, m)
    case Logout(cookie, user) => LogoutStep(c, s, cookie, user, m.now)
    case RevokeSession(user, id) => RevokeSessionStep(s, user, id, m.now)
    case RequestReset(email) => RequestResetStep(c, s, email, m)
    case VerifyEmail(token) => VerifyEmailStep(c, s, token, m.now)
    case ResetPassword(token, password) => ResetPasswordStep(c, s, token, password, m.now)
  }

  /** Every route commits on success and drops the transaction when the service refuses. */
  function Committed(c: Config, s: State, q: Request, m: Minted): State {
    var (pending, reply) := Pending(c, s, q, m);
    if reply.Refused? then s else pending
  }

  function Answer(c: Config, s: State, q: Request, m: Minted): Reply { Pending(c, s, q, m).1 }

  // ---- what every request keeps -------------------------------------------

  /** Within a chain only the newest row can be unrevoked, and every row has the same owner. */
  ghost predicate ChainsRotate(rows: seq<RefreshRow>) {
    forall i, j :: 0 <= i < j < |rows| && rows[i].chain == rows[j].chain ==>
      rows[i].revokedAt.Some? && rows[i].user == rows[j].user && rows[i].tenant == rows[j].tenant
  }

  ghost predicate DistinctSessions(rows: seq<RefreshRow>) {
    forall i, j :: 0 <= i < j < |rows| ==> rows[i].id != rows[j].id && rows[i].hash != rows[j].hash
  }

  ghost predicate DistinctTokens(tokens: seq<AuthToken>) {
    forall i, j :: 0 <= i < j < |tokens| ==> tokens[i].hash != tokens[j].hash
  }

  ghost predicate DistinctUsers(users: seq<User>) {
    forall i, j :: 0 <= i < j < |users| ==> users[i].id != users[j].id && users[i].email != users[j].email
  }

  ghost predicate Inv(s: State) {
    DistinctUsers(s.users) && DistinctSessions(s.sessions) && ChainsRotate(s.sessions) && DistinctTokens(s.tokens)
  }

  /** The random id and cleartext were never drawn before. */
  ghost predicate Fresh(c: Config, s: State, m: Minted) {
    && (forall i :: 0 <= i < |s.sessions| ==>
          s.sessions[i].id != m.id && s.sessions[i].chain != m.id && s.sessions[i].hash != c.hmac(m.cleartext))
    && (forall i :: 0 <= i < |s.tokens| ==> s.tokens[i].hash != c.hmac(m.cleartext))
    && (forall i :: 0 <= i < |s.users| ==> s.users[i].id != m.id)
  }

  /** A later table: no row is lost or moved, nothing but `revoked_at` changes, and a revoked row never changes
      again. */
  ghost predicate Later(before: seq<RefreshRow>, after: seq<RefreshRow>) {
    && |before| <= |after|
    && (forall i :: 0 <= i < |before| ==> after[i].(revokedAt := before[i].revokedAt) == before[i])
    && (forall i :: 0 <= i < |before| && before[i].revokedAt.Some? ==> after[i] == before[i])
  }

  /** A later token table: no row is lost or moved, and a used row never changes again. */
  ghost predicate LaterTokens(before: seq<AuthToken>, after: seq<AuthToken>) {
    && |before| <= |after|
    && (forall i :: 0 <= i < |before| ==> after[i].(usedAt := before[i].usedAt) == before[i])
    && (forall i :: 0 <= i < |before| && before[i].usedAt.Some? ==> after[i] == before[i])
  }

  /** Every row of the chain is revoked, and there is one. */
  ghost predicate Dead(rows: seq<RefreshRow>, chain: string) {
    && (exists i :: 0 <= i < |rows| && rows[i].chain == chain)
    && (forall i :: 0 <= i < |rows| && rows[i].chain == chain ==> rows[i].revokedAt.Some?)
  }

  ghost predicate SessionsKept(before: seq<RefreshRow>, after: seq<RefreshRow>) {
    && DistinctSessions(after) && ChainsRotate(after) && Later(before, after)
  }

  lemma RevokeKeeps(rows: seq<RefreshRow>, p: RefreshRow -> bool, now: int)
    requires DistinctSessions(rows) && ChainsRotate(rows)
    ensures SessionsKept(rows, RevokeWhere(rows, p, now))
  {
  }

  lemma IssueKeeps(rows: seq<RefreshRow>, row: RefreshRow)
    requires DistinctSessions(rows) && ChainsRotate(rows)
    requires forall i :: 0 <= i < |rows| ==>
               rows[i].id != row.id && rows[i].hash != row.hash && rows[i].chain != row.chain
    ensures SessionsKept(rows, rows + [row])
  {
  }

  /** The unrevoked row of a chain is its newest, so revoking it and appending its successor keeps the chain in
      order. */
  lemma RotateKeeps(rows: seq<RefreshRow>, i: nat, row: RefreshRow, now: int)
    requires DistinctSessions(rows) && ChainsRotate(rows) && i < |rows| && rows[i].revokedAt.None?
    requires forall k :: 0 <= k < |rows| ==> rows[k].id != row.id && rows[k].hash != row.hash
    requires row.chain == rows[i].chain && row.user == rows[i].user && row.tenant == rows[i].tenant
    ensures SessionsKept(rows, rows[i := Revoked(rows[i], now)] + [row])
  {
    var after := rows[i := Revoked(rows[i], now)] + [row];
    forall a, b | 0 <= a < b < |after| && after[a].chain == after[b].chain
      ensures after[a].revokedAt.Some? && after[a].user == after[b].user && after[a].tenant == after[b].tenant
    {
      if b < |rows| {
        assert rows[a].chain == rows[b].chain;
      } else if a != i {
        assert rows[a].chain == rows[i].chain;
      }
    }
  }

  /** Every committed request keeps the session table in order, loses nothing and clears no revocation. */
  lemma RequestKeepsSessions(c: Config, s: State, q: Request, m: Minted)
    requires Inv(s) && Fresh(c, s, m)
    ensures SessionsKept(s.sessions, Committed(c, s, q, m).sessions)
  {
    match q
    case Login(_, _, _) => LoginKeeps(c, s, q, m);
    case FinishMfaLogin(user) => IssueSessionKeeps(c, s, user, m);
    case Refresh(cleartext) => RefreshKeeps(c, s, cleartext, m);
    case Logout(cookie, user) =>
      if cookie.Some? { RevokeKeeps(s.sessions, OfCookie(c.hmac(cookie.value), user), m.now); }
    case RevokeSession(user, id) => RevokeKeeps(s.sessions, OfId(id, user), m.now);
    case ResetPassword(token, _) =>
      if Answer(c, s, q, m) == Done {
        var t := Consume(c, s.tokens, token, PasswordReset, m.now).value;
        var u := First(s.users, UserWithId(s.tokens[t].user)).value;
        RevokeKeeps(s.sessions, OfUser(s.users[u].id), m.now);
      }
    case _ =>
  }

  lemma IssueSessionKeeps(c: Config, s: State, user: string, m: Minted)
    requires Inv(s) && Fresh(c, s, m)
    ensures SessionsKept(s.sessions, IssueSession(c, s, user, m).0.sessions)
  {
    if IssueSession(c, s, user, m).1.Issued? {
      IssueKeeps(s.sessions, NewRow(c, user, IssueSession(c, s, user, m).1.tenant, m.id, m));
    }
  }

  lemma LoginKeeps(c: Config, s: State, q: Request, m: Minted)
    requires Inv(s) && Fresh(c, s, m) && q.Login?
    ensures SessionsKept(s.sessions, Committed(c, s, q, m).sessions)
  {
    var found := First(s.users, UserWithEmail(Address(q.email)));
    if found.Some? { IssueSessionKeeps(c, s, s.users[found.value].id, m); }
  }

  lemma RefreshKeeps(c: Config, s: State, cleartext: string, m: Minted)
    requires Inv(s) && Fresh(c, s, m)
    ensures SessionsKept(s.sessions, Committed(c, s, Refresh(cleartext), m).sessions)
  {
    if RefreshStep(c, s, cleartext, m).1.Issued? {
      var i := First(s.sessions, WithHash(c.hmac(cleartext))).value;
      var row := s.sessions[i];
      RotateKeeps(s.sessions, i, NewRow(c, row.user, row.tenant, row.chain, m), m.now);
    }
  }

  /** Every committed request keeps the one-shot tokens apart, loses none and clears no use. */
  lemma RequestKeepsTokens(c: Config, s: State, q: Request, m: Minted)
    requires Inv(s) && Fresh(c, s, m)
    ensures DistinctTokens(Committed(c, s, q, m).tokens) && LaterTokens(s.tokens, Committed(c, s, q, m).tokens)
  {
  }

  /** Every committed request keeps accounts apart: one per id, and one per e-mail address. */
  lemma RequestKeepsUsers(c: Config, s: State, q: Request, m: Minted)
    requires Inv(s) && Fresh(c, s, m)
    ensures DistinctUsers(Committed(c, s, q, m).users)
  {
    if q.Register? { FirstFinds(s.users, UserWithEmail(Address(q.email))); }
  }

  // ---- when a request is granted ------------------------------------------

  /** Account `i` has this address and password. */
  predicate Credentials(c: Config, s: State, email: string, password: string, i: int) {
    0 <= i < |s.users| && s.users[i].email == Address(email) && c.checkPassword(password, s.users[i].passwordHash)
  }

  predicate Admitted(c: Config, s: State, email: string, password: string, i: int) {
    Credentials(c, s, email, password, i) && s.users[i].active && s.users[i].verified
  }

  /** The account a login is judged by, and no other account has the address. */
  lemma OneAccount(c: Config, s: State, email: string, password: string)
    ensures DistinctUsers(s.users) ==>
              match First(s.users, UserWithEmail(Address(email)))
              case None => forall i :: !Credentials(c, s, email, password, i)
              case Some(n) => forall i :: Credentials(c, s, email, password, i) ==> i == n
  {
    FirstFinds(s.users, UserWithEmail(Address(email)));
    forall i | 0 <= i < |s.users| && s.users[i].email == Address(email)
      ensures UserWithEmail(Address(email))(s.users[i])
    {
    }
  }

  /** Which account gets which answer: a session without a second factor, a challenge with one. */
  lemma LoginPassesIff(c: Config, s: State, email: string, password: string, mfaActive: bool, m: Minted)
    requires Inv(s)
    ensures var r := Answer(c, s, Login(email, password, mfaActive), m);
            && (r.Issued? <==> exists i :: Admitted(c, s, email, password, i) && !mfaActive && s.users[i].tenant.Some?)
            && (r.Challenge? <==> exists i :: Admitted(c, s, email, password, i) && mfaActive)
            && (r == Refused(NoMembership) <==>
                  exists i :: Admitted(c, s, email, password, i) && !mfaActive && s.users[i].tenant.None?)
            && (r.Issued? || r.Challenge? ==> exists i :: Admitted(c, s, email, password, i) && r.user == s.users[i].id)
  {
    OneAccount(c, s, email, password);
    var found := First(s.users, UserWithEmail(Address(email)));
    if found.Some? && Admitted(c, s, email, password, found.value) {
      var u := s.users[found.value];
      FirstFinds(s.users, UserWithId(u.id));
      assert UserWithId(u.id)(u);
    }
  }

  /** And why a login is turned away before that. */
  lemma LoginRefusedIff(c: Config, s: State, email: string, password: string, mfaActive: bool, m: Minted)
    requires Inv(s)
    ensures var r := Answer(c, s, Login(email, password, mfaActive), m);
            && (r == Refused(InvalidCredentials) <==> forall i :: !Credentials(c, s, email, password, i))
            && (r == Refused(AccountInactive) <==>
                  exists i :: Credentials(c, s, email, password, i) && !s.users[i].active)
            && (r == Refused(AccountUnverified) <==>
                  exists i :: Credentials(c, s, email, password, i) && s.users[i].active && !s.users[i].verified)
  {
    OneAccount(c, s, email, password);
    var found := First(s.users, UserWithEmail(Address(email)));
    if found.Some? && c.checkPassword(password, s.users[found.value].passwordHash) {
      assert Credentials(c, s, email, password, found.value);
    }
  }

  /** A refresh is granted exactly when some unrevoked, unexpired row has the token's hash. */
  lemma RefreshGrantedIff(c: Config, s: State, cleartext: string, m: Minted)
    requires Inv(s)
    ensures Answer(c, s, Refresh(cleartext), m).Issued? <==>
              cleartext != "" && exists i :: 0 <= i < |s.sessions| && s.sessions[i].hash == c.hmac(cleartext)
                                             && s.sessions[i].revokedAt.None? && s.sessions[i].expiresAt >= m.now
  {
    FirstFinds(s.sessions, WithHash(c.hmac(cleartext)));
    forall i | 0 <= i < |s.sessions| && s.sessions[i].hash == c.hmac(cleartext)
      ensures First(s.sessions, WithHash(c.hmac(cleartext))) == Some(i)
    {
      assert WithHash(c.hmac(cleartext))(s.sessions[i]);
    }
  }

  /** A one-shot token is accepted exactly when some unused, unexpired row of its kind has its hash. */
  lemma ConsumeGrantedIff(c: Config, s: State, cleartext: string, kind: TokenKind, now: int)
    requires Inv(s)
    ensures Consume(c, s.tokens, cleartext, kind, now).Ok? <==>
              cleartext != "" && exists i :: 0 <= i < |s.tokens| && s.tokens[i].hash == c.hmac(cleartext)
                                             && s.tokens[i].kind == kind
                                             && s.tokens[i].usedAt.None? && s.tokens[i].expiresAt >= now
  {
    FirstFinds(s.tokens, TokenWith(c.hmac(cleartext), kind));
    forall i | 0 <= i < |s.tokens| && s.tokens[i].hash == c.hmac(cleartext) && s.tokens[i].kind == kind
      ensures First(s.tokens, TokenWith(c.hmac(cleartext), kind)) == Some(i)
    {
      assert TokenWith(c.hmac(cleartext), kind)(s.tokens[i]);
    }
  }

  ghost predicate RowOfToken(c: Config, s: State, cleartext: string, i: int) {
    cleartext != "" && 0 <= i < |s.sessions| && s.sessions[i].hash == c.hmac(cleartext)
  }

  ghost predicate RevokedRow(c: Config, s: State, cleartext: string, i: int) {
    RowOfToken(c, s, cleartext, i) && s.sessions[i].revokedAt.Some?
  }

  ghost predicate ExpiredRow(c: Config, s: State, cleartext: string, now: int, i: int) {
    RowOfToken(c, s, cleartext, i) && s.sessions[i].revokedAt.None? && s.sessions[i].expiresAt < now
  }

  /** A refresh that is not granted is told apart: reuse if and only if the token's row is revoked, expiry if and only
      if it is live and past its time, and otherwise there is no such row. */
  lemma RefreshRefusedIff(c: Config, s: State, cleartext: string, m: Minted)
    requires Inv(s)
    ensures var r := Answer(c, s, Refresh(cleartext), m);
            && (r == Refused(RefreshTokenInvalid) <==> forall i :: !RowOfToken(c, s, cleartext, i))
            && (r == Refused(RefreshTokenReuse) <==> exists i :: RevokedRow(c, s, cleartext, i))
            && (r == Refused(RefreshTokenExpired) <==> exists i :: ExpiredRow(c, s, cleartext, m.now, i))
  {
    var found := First(s.sessions, WithHash(c.hmac(cleartext)));
    FirstFinds(s.sessions, WithHash(c.hmac(cleartext)));
    forall i | RowOfToken(c, s, cleartext, i) ensures found == Some(i) {
      assert WithHash(c.hmac(cleartext))(s.sessions[i]);
    }
    if found.Some? && cleartext != "" {
      assert RowOfToken(c, s, cleartext, found.value);
      assert RevokedRow(c, s, cleartext, found.value) <==> s.sessions[found.value].revokedAt.Some?;
      assert ExpiredRow(c, s, cleartext, m.now, found.value)
        <==> s.sessions[found.value].revokedAt.None? && s.sessions[found.value].expiresAt < m.now;
    }
  }

  ghost predicate TokenRow(c: Config, s: State, cleartext: string, kind: TokenKind, i: int) {
    cleartext != "" && 0 <= i < |s.tokens| && s.tokens[i].hash == c.hmac(cleartext) && s.tokens[i].kind == kind
  }

  ghost predicate UsedToken(c: Config, s: State, cleartext: string, kind: TokenKind, i: int) {
    TokenRow(c, s, cleartext, kind, i) && s.tokens[i].usedAt.Some?
  }

  ghost predicate ExpiredToken(c: Config, s: State, cleartext: string, kind: TokenKind, now: int, i: int) {
    TokenRow(c, s, cleartext, kind, i) && s.tokens[i].usedAt.None? && s.tokens[i].expiresAt < now
  }

  /** A one-shot token that is not accepted is told apart: used, expired, or no token of its kind. */
  lemma ConsumeRefusedIff(c: Config, s: State, cleartext: string, kind: TokenKind, now: int)
    requires Inv(s)
    ensures var r := Consume(c, s.tokens, cleartext, kind, now);
            && (r == Err(AuthTokenInvalid) <==> forall i :: !TokenRow(c, s, cleartext, kind, i))
            && (r == Err(AuthTokenAlreadyUsed) <==> exists i :: UsedToken(c, s, cleartext, kind, i))
            && (r == Err(AuthTokenExpired) <==> exists i :: ExpiredToken(c, s, cleartext, kind, now, i))
  {
    var found := First(s.tokens, TokenWith(c.hmac(cleartext), kind));
    FirstFinds(s.tokens, TokenWith(c.hmac(cleartext), kind));
    forall i | TokenRow(c, s, cleartext, kind, i) ensures found == Some(i) {
      assert TokenWith(c.hmac(cleartext), kind)(s.tokens[i]);
    }
    if found.Some? && cleartext != "" {
      assert TokenRow(c, s, cleartext, kind, found.value);
      assert UsedToken(c, s, cleartext, kind, found.value) <==> s.tokens[found.value].usedAt.Some?;
      assert ExpiredToken(c, s, cleartext, kind, now, found.value)
        <==> s.tokens[found.value].usedAt.None? && s.tokens[found.value].expiresAt < now;
    }
  }

  /** A request adds at most one row: a login starts a chain, a rotation continues the chain of an unrevoked row. */
  lemma AddedRow(c: Config, s: State, q: Request, m: Minted)
    requires Committed(c, s, q, m).sessions != [] && |Committed(c, s, q, m).sessions| != |s.sessions|
    ensures var after := Committed(c, s, q, m).sessions;
            && |after| == |s.sessions| + 1
            && (after[|s.sessions|].chain == m.id
                || exists k :: 0 <= k < |s.sessions| && s.sessions[k].revokedAt.None?
                               && s.sessions[k].chain == after[|s.sessions|].chain)
  {
    if q.Refresh? {
      var i := First(s.sessions, WithHash(c.hmac(q.cleartext))).value;
      assert s.sessions[i].revokedAt.None?;
    }
  }

  /** A chain whose rows are all revoked gets no new row, and stays that way. */
  lemma DeadStaysDead(c: Config, s: State, q: Request, m: Minted, chain: string)
    requires Inv(s) && Fresh(c, s, m) && Dead(s.sessions, chain)
    ensures var after := Committed(c, s, q, m).sessions;
            Dead(after, chain) && forall j :: |s.sessions| <= j < |after| ==> after[j].chain != chain
  {
    RequestKeepsSessions(c, s, q, m);
    var after := Committed(c, s, q, m).sessions;
    if |after| != |s.sessions| { AddedRow(c, s, q, m); }
    StillDead(s.sessions, after, chain);
  }

  lemma StillDead(before: seq<RefreshRow>, after: seq<RefreshRow>, chain: string)
    requires Dead(before, chain) && Later(before, after)
    requires forall j :: |before| <= j < |after| ==> after[j].chain != chain
    ensures Dead(after, chain)
  {
    var w :| 0 <= w < |before| && before[w].chain == chain;
    assert after[w].chain == chain;
  }

  // ---- what the other requests do -----------------------------------------

  ghost predicate HasAccount(users: seq<User>, address: string) {
    exists i :: 0 <= i < |users| && users[i].email == address
  }

  /** A registration refuses a weak password or a taken address, and otherwise adds one unverified user and the token
      that verifies it. */
  ghost predicate Registered(c: Config, before: State, email: string, password: string, workspace: string,
                             tenant: string, m: Minted, after: State, r: Reply)
  {
    var address := Address(email);
    if !c.strong(password, [address, workspace]) then r == Refused(WeakPassword) && after == before
    else if HasAccount(before.users, address) then r == Refused(EmailAlreadyTaken) && after == before
    else
      && r == Done && after.sessions == before.sessions
      && |after.users| == |before.users| + 1 && after.users[..|before.users|] == before.users
      && after.users[|before.users|] == User(m.id, address, c.hashPassword(password), true, false, Some(tenant))
      && |after.tokens| == |before.tokens| + 1 && after.tokens[..|before.tokens|] == before.tokens
      && after.tokens[|before.tokens|]
         == AuthToken(m.id, EmailVerify, c.hmac(m.cleartext), m.now + c.verifyTtl, None)
  }

  /** Whether or not the address has an account, the answer is the same; only if it has, one token for it is added. */
  ghost predicate ResetRequested(c: Config, before: State, email: string, m: Minted, after: State, r: Reply) {
    && r == Done && after.users == before.users && after.sessions == before.sessions
    && if !HasAccount(before.users, Address(email)) then after.tokens == before.tokens
       else exists u: nat :: TokenAdded(c, before, email, m, after, u)
  }

  ghost predicate TokenAdded(c: Config, before: State, email: string, m: Minted, after: State, u: nat) {
    && u < |before.users| && before.users[u].email == Address(email)
    && |after.tokens| == |before.tokens| + 1 && after.tokens[..|before.tokens|] == before.tokens
    && after.tokens[|before.tokens|]
       == AuthToken(before.users[u].id, PasswordReset, c.hmac(m.cleartext), m.now + c.resetTtl, None)
  }

  /** A confirmation marks its token used and verifies the user it was for, and no other. */
  ghost predicate EmailConfirmed(c: Config, before: State, token: string, now: int, after: State, r: Reply) {
    && after.sessions == before.sessions && (r.Verified? || r.Refused?)
    && if r.Refused? then after == before
       else
         && (exists i: nat :: MarkedAt(c, before.tokens, after.tokens, token, EmailVerify, now, r.user, i))
         && |after.users| == |before.users|
         && forall u :: 0 <= u < |before.users| ==>
              after.users[u] == if before.users[u].id == r.user then before.users[u].(verified := true)
                                else before.users[u]
  }

  lemma FindsAccount(users: seq<User>, address: string)
    ensures First(users, UserWithEmail(address)).Some? <==> HasAccount(users, address)
  {
    FirstFinds(users, UserWithEmail(address));
  }

  lemma RegisterStepRegisters(c: Config, s: State, email: string, password: string, workspace: string, tenant: string,
                              m: Minted)
    ensures var (after, r) := RegisterStep(c, s, email, password, workspace, tenant, m);
            Registered(c, s, email, password, workspace, tenant, m, after, r)
  {
    FindsAccount(s.users, Address(email));
  }

  lemma RequestResetStepRequests(c: Config, s: State, email: string, m: Minted)
    ensures var (after, r) := RequestResetStep(c, s, email, m); ResetRequested(c, s, email, m, after, r)
  {
    FindsAccount(s.users, Address(email));
    var found := First(s.users, UserWithEmail(Address(email)));
    if found.Some? { assert TokenAdded(c, s, email, m, RequestResetStep(c, s, email, m).0, found.value); }
  }

  lemma VerifyEmailStepConfirms(c: Config, s: State, token: string, now: int)
    ensures var (after, r) := VerifyEmailStep(c, s, token, now); EmailConfirmed(c, s, token, now, after, r)
  {
    var after := VerifyEmailStep(c, s, token, now).0;
    match Consume(c, s.tokens, token, EmailVerify, now)
    case Err(_) =>
    case Ok(i) => assert MarkedAt(c, s.tokens, after.tokens, token, EmailVerify, now, s.tokens[i].user, i);
  }
}
