/** Safety of sessions and one-shot tokens over any run of requests. */
module AccountRuns {
  import opened Wrappers
  import opened Accounts

  /** One handled request: what came in, what was drawn for it, what went out. */
  datatype Event = Event(request: Request, minted: Minted, reply: Reply)

  ghost predicate IsStep(c: Config, s: State, e: Event, s': State) {
    Fresh(c, s, e.minted) && s' == Committed(c, s, e.request, e.minted) && e.reply == Answer(c, s, e.request, e.minted)
  }

  ghost predicate StepHolds(c: Config, states: seq<State>, events: seq<Event>, i: nat)
    requires |states| == |events| + 1 && i < |events|
  {
    IsStep(c, states[i], events[i], states[i + 1])
  }

  /** A run: one request after another, from tables in order. */
  ghost predicate IsRun(c: Config, states: seq<State>, events: seq<Event>) {
    && |states| == |events| + 1 && Inv(states[0])
    && forall i :: 0 <= i < |events| ==> StepHolds(c, states, events, i)
  }

  lemma StepKeeps(c: Config, s: State, e: Event, s': State)
    requires Inv(s) && IsStep(c, s, e, s')
    ensures Inv(s') && Later(s.sessions, s'.sessions) && LaterTokens(s.tokens, s'.tokens)
  {
    RequestKeepsSessions(c, s, e.request, e.minted);
    RequestKeepsTokens(c, s, e.request, e.minted);
    RequestKeepsUsers(c, s, e.request, e.minted);
  }

  lemma StepKeepsInv(c: Config, states: seq<State>, events: seq<Event>, i: nat)
    requires |states| == |events| + 1 && i < |events| && StepHolds(c, states, events, i) && Inv(states[i])
    ensures Inv(states[i + 1])
  {
    StepKeeps(c, states[i], events[i], states[i + 1]);
  }

  lemma {:induction false} RunKeepsInv(c: Config, states: seq<State>, events: seq<Event>, n: nat)
    requires IsRun(c, states, events) && n <= |events|
    ensures Inv(states[n])
  {
    if n > 0 {
      RunKeepsInv(c, states, events, n - 1);
      StepKeepsInv(c, states, events, n - 1);
    }
  }

  /** Step `i` of a run, between tables in order. */
  lemma StepAt(c: Config, states: seq<State>, events: seq<Event>, i: nat)
    requires IsRun(c, states, events) && i < |events|
    ensures IsStep(c, states[i], events[i], states[i + 1]) && Inv(states[i]) && Inv(states[i + 1])
    ensures Later(states[i].sessions, states[i + 1].sessions) && LaterTokens(states[i].tokens, states[i + 1].tokens)
  {
    RunKeepsInv(c, states, events, i);
    assert StepHolds(c, states, events, i);
    StepKeeps(c, states[i], events[i], states[i + 1]);
  }

  lemma LaterTrans(a: seq<RefreshRow>, b: seq<RefreshRow>, d: seq<RefreshRow>)
    requires Later(a, b) && Later(b, d)
    ensures Later(a, d)
  {
    forall i | 0 <= i < |a|
      ensures d[i].(revokedAt := a[i].revokedAt) == a[i] && (a[i].revokedAt.Some? ==> d[i] == a[i])
    {
      assert b[i].(revokedAt := a[i].revokedAt) == a[i] && d[i].(revokedAt := b[i].revokedAt) == b[i];
    }
  }

  lemma LaterTokensTrans(a: seq<AuthToken>, b: seq<AuthToken>, d: seq<AuthToken>)
    requires LaterTokens(a, b) && LaterTokens(b, d)
    ensures LaterTokens(a, d)
  {
    forall i | 0 <= i < |a|
      ensures d[i].(usedAt := a[i].usedAt) == a[i] && (a[i].usedAt.Some? ==> d[i] == a[i])
    {
      assert b[i].(usedAt := a[i].usedAt) == a[i] && d[i].(usedAt := b[i].usedAt) == b[i];
    }
  }

  /** Over any stretch of a run no row is lost and neither a revocation nor a use is ever cleared. */
  lemma {:induction false} NothingIsCleared(c: Config, states: seq<State>, events: seq<Event>, i: nat, j: nat)
    requires IsRun(c, states, events) && i <= j <= |events|
    ensures Later(states[i].sessions, states[j].sessions) && LaterTokens(states[i].tokens, states[j].tokens)
  {
    if i < j {
      NothingIsCleared(c, states, events, i, j - 1);
      StepAt(c, states, events, j - 1);
      LaterTrans(states[i].sessions, states[j - 1].sessions, states[j].sessions);
      LaterTokensTrans(states[i].tokens, states[j - 1].tokens, states[j].tokens);
    }
  }

  // ---- rotation -----------------------------------------------------------

  /** The rows a rotation chain has in a reachable state: at most one is unrevoked, and it is the newest. */
  lemma ChainHasOneLiveRow(c: Config, states: seq<State>, events: seq<Event>, n: nat, i: nat, j: nat)
    requires IsRun(c, states, events) && n <= |events|
    requires var rows := states[n].sessions;
             i < |rows| && j < |rows| && rows[i].chain == rows[j].chain && rows[i].revokedAt.None?
    ensures j <= i && (j < i ==> states[n].sessions[j].revokedAt.Some?)
    ensures states[n].sessions[j].user == states[n].sessions[i].user
  {
    RunKeepsInv(c, states, events, n);
  }

  ghost predicate AcceptsRefresh(e: Event, cleartext: string) {
    e.request == Refresh(cleartext) && e.reply.Issued?
  }

  /** The row an accepted refresh token stands for. */
  function RowOf(c: Config, s: State, cleartext: string): nat {
    match First(s.sessions, WithHash(c.hmac(cleartext)))
    case Some(i) => i
    case None => 0
  }

  /** An accepted refresh finds its row unrevoked and leaves it revoked. */
  lemma RefreshSpends(c: Config, s: State, e: Event, s': State, cleartext: string)
    requires Inv(s) && IsStep(c, s, e, s') && AcceptsRefresh(e, cleartext)
    ensures var i := RowOf(c, s, cleartext);
            && i < |s.sessions| && s.sessions[i].hash == c.hmac(cleartext) && s.sessions[i].user == e.reply.user
            && s.sessions[i].revokedAt.None? && SpentRow(c, s', cleartext, i)
  {
  }

  /** Row `i` is the row of this token, and it is revoked. */
  ghost predicate SpentRow(c: Config, s: State, cleartext: string, i: nat) {
    cleartext != "" && i < |s.sessions| && s.sessions[i].hash == c.hmac(cleartext) && s.sessions[i].revokedAt.Some?
  }

  /** Two rows with the same hash are one row. */
  lemma FirstIsTheRow(c: Config, s: State, cleartext: string, i: nat)
    requires Inv(s) && i < |s.sessions| && s.sessions[i].hash == c.hmac(cleartext)
    ensures First(s.sessions, WithHash(c.hmac(cleartext))) == Some(i)
  {
    FirstFinds(s.sessions, WithHash(c.hmac(cleartext)));
    assert WithHash(c.hmac(cleartext))(s.sessions[i]);
  }

  lemma SpentIsReuse(c: Config, s: State, cleartext: string, i: nat, m: Minted)
    requires Inv(s) && SpentRow(c, s, cleartext, i)
    ensures Answer(c, s, Refresh(cleartext), m) == Refused(RefreshTokenReuse)
  {
    FirstIsTheRow(c, s, cleartext, i);
  }

  lemma SpentStaysSpent(c: Config, a: State, b: State, cleartext: string, i: nat)
    requires SpentRow(c, a, cleartext, i) && Later(a.sessions, b.sessions)
    ensures SpentRow(c, b, cleartext, i)
  {
  }

  /** Once accepted, a refresh token is refused as reused for the rest of the run. */
  lemma AcceptedIsReuseEverAfter(c: Config, states: seq<State>, events: seq<Event>, i: nat, j: nat, cleartext: string,
                                 m: Minted)
    requires IsRun(c, states, events) && i < j <= |events| && AcceptsRefresh(events[i], cleartext)
    ensures Answer(c, states[j], Refresh(cleartext), m) == Refused(RefreshTokenReuse)
  {
    StepAt(c, states, events, i);
    RefreshSpends(c, states[i], events[i], states[i + 1], cleartext);
    NothingIsCleared(c, states, events, i + 1, j);
    SpentStaysSpent(c, states[i + 1], states[j], cleartext, RowOf(c, states[i], cleartext));
    RunKeepsInv(c, states, events, j);
    SpentIsReuse(c, states[j], cleartext, RowOf(c, states[i], cleartext), m);
  }

  /** No refresh token is ever accepted twice. */
  lemma NoTokenAcceptedTwice(c: Config, states: seq<State>, events: seq<Event>, i: nat, j: nat, cleartext: string)
    requires IsRun(c, states, events) && i < j < |events| && AcceptsRefresh(events[i], cleartext)
    ensures !AcceptsRefresh(events[j], cleartext)
  {
    AcceptedIsReuseEverAfter(c, states, events, i, j, cleartext, events[j].minted);
    assert StepHolds(c, states, events, j);
  }

  /** A chain that is dead stays dead, and gets no new row, for the rest of the run. */
  lemma {:induction false} DeadForever(c: Config, states: seq<State>, events: seq<Event>, i: nat, j: nat, chain: string)
    requires IsRun(c, states, events) && i <= j <= |events| && Dead(states[i].sessions, chain)
    ensures Dead(states[j].sessions, chain)
  {
    if i < j {
      DeadForever(c, states, events, i, j - 1, chain);
      DeadOneStep(c, states, events, j - 1, chain);
    }
  }

  lemma DeadOneStep(c: Config, states: seq<State>, events: seq<Event>, i: nat, chain: string)
    requires IsRun(c, states, events) && i < |events| && Dead(states[i].sessions, chain)
    ensures Dead(states[i + 1].sessions, chain)
  {
    RunKeepsInv(c, states, events, i);
    assert StepHolds(c, states, events, i);
    DeadStaysDead(c, states[i], events[i].request, events[i].minted, chain);
  }

  /** Every row of the user is revoked. */
  ghost predicate AllRevoked(rows: seq<RefreshRow>, user: string) {
    forall i :: 0 <= i < |rows| && rows[i].user == user ==> rows[i].revokedAt.Some?
  }

  /** The user whose password a reset token changes. */
  function TokenOwner(c: Config, s: State, cleartext: string, kind: TokenKind): string {
    match First(s.tokens, TokenWith(c.hmac(cleartext), kind))
    case Some(i) => s.tokens[i].user
    case None => ""
  }

  lemma ResetRevokesAll(c: Config, s: State, e: Event, s': State)
    requires IsStep(c, s, e, s') && e.request.ResetPassword? && e.reply == Done
    ensures AllRevoked(s'.sessions, TokenOwner(c, s, e.request.token, PasswordReset))
  {
  }

  /** After a password reset no session that existed can be refreshed again: a refresh accepted for
      that user belongs to a chain that a later login started. */
  lemma ResetEndsEverySession(c: Config, states: seq<State>, events: seq<Event>, i: nat, j: nat, cleartext: string,
                              r: nat)
    requires IsRun(c, states, events) && i < j < |events|
    requires events[i].request.ResetPassword? && events[i].reply == Done
    requires AcceptsRefresh(events[j], cleartext)
    requires events[j].reply.user == TokenOwner(c, states[i], events[i].request.token, PasswordReset)
    requires r < |states[i + 1].sessions|
    ensures RowOf(c, states[j], cleartext) < |states[j].sessions|
    ensures states[i + 1].sessions[r].chain != states[j].sessions[RowOf(c, states[j], cleartext)].chain
  {
    RefreshFindsLive(c, states, events, j, cleartext);
    var k := RowOf(c, states[j], cleartext);
    if states[i + 1].sessions[r].chain == states[j].sessions[k].chain {
      NothingIsCleared(c, states, events, i + 1, j);
      RunKeepsInv(c, states, events, j);
      SameChainSameUser(states[i + 1].sessions, states[j].sessions, r, k);
      DeadAfterReset(c, states, events, i, j, r);
    }
  }

  lemma RefreshFindsLive(c: Config, states: seq<State>, events: seq<Event>, j: nat, cleartext: string)
    requires IsRun(c, states, events) && j < |events| && AcceptsRefresh(events[j], cleartext)
    ensures var k := RowOf(c, states[j], cleartext);
            && k < |states[j].sessions| && states[j].sessions[k].revokedAt.None?
            && states[j].sessions[k].user == events[j].reply.user
  {
    StepAt(c, states, events, j);
    RefreshSpends(c, states[j], events[j], states[j + 1], cleartext);
  }

  /** Every chain the user had when the password was reset is dead from then on. */
  lemma DeadAfterReset(c: Config, states: seq<State>, events: seq<Event>, i: nat, j: nat, r: nat)
    requires IsRun(c, states, events) && i < j <= |events| && r < |states[i + 1].sessions|
    requires events[i].request.ResetPassword? && events[i].reply == Done
    requires states[i + 1].sessions[r].user == TokenOwner(c, states[i], events[i].request.token, PasswordReset)
    ensures Dead(states[j].sessions, states[i + 1].sessions[r].chain)
  {
    StepAt(c, states, events, i);
    ResetKillsChain(c, states[i], events[i], states[i + 1], r);
    DeadForever(c, states, events, i + 1, j, states[i + 1].sessions[r].chain);
  }

  lemma SameChainSameUser(before: seq<RefreshRow>, after: seq<RefreshRow>, r: nat, k: nat)
    requires Later(before, after) && ChainsRotate(after) && r < |before| && k < |after|
          && before[r].chain == after[k].chain
    ensures before[r].user == after[k].user
  {
    assert after[r].(revokedAt := before[r].revokedAt) == before[r];
  }

  lemma ResetKillsChain(c: Config, s: State, e: Event, s': State, r: nat)
    requires IsStep(c, s, e, s') && e.request.ResetPassword? && e.reply == Done && ChainsRotate(s'.sessions)
    requires r < |s'.sessions| && s'.sessions[r].user == TokenOwner(c, s, e.request.token, PasswordReset)
    ensures Dead(s'.sessions, s'.sessions[r].chain)
  {
    ResetRevokesAll(c, s, e, s');
  }

  /** Logging out with a user's own token ends its chain exactly when no newer row of the chain is live. */
  lemma LogoutEndsChainIff(c: Config, s: State, cleartext: string, m: Minted, i: nat)
    requires Inv(s) && i < |s.sessions| && s.sessions[i].hash == c.hmac(cleartext) && cleartext != ""
    ensures Dead(Committed(c, s, Logout(Some(cleartext), s.sessions[i].user), m).sessions, s.sessions[i].chain)
            <==> forall k :: i < k < |s.sessions| && s.sessions[k].chain == s.sessions[i].chain ==>
                   s.sessions[k].revokedAt.Some?
  {
    var rows, after := s.sessions, Committed(c, s, Logout(Some(cleartext), s.sessions[i].user), m).sessions;
    assert after == RevokeWhere(rows, OfCookie(c.hmac(cleartext), rows[i].user), m.now);
    assert after[i].chain == rows[i].chain;
    forall k | 0 <= k < |rows| && k != i ensures after[k] == rows[k] { }
  }

  // ---- reuse --------------------------------------------------------------

  /** Reuse of a revoked token revokes every session of its user in the pending transaction, which is dropped. */
  lemma ReuseIsUndone(c: Config, s: State, cleartext: string, m: Minted)
    requires Answer(c, s, Refresh(cleartext), m) == Refused(RefreshTokenReuse)
    ensures var user := s.sessions[First(s.sessions, WithHash(c.hmac(cleartext))).value].user;
            AllRevoked(Pending(c, s, Refresh(cleartext), m).0.sessions, user)
    ensures Committed(c, s, Refresh(cleartext), m) == s
  {
  }

  /** The requests that end a session: a refresh accepted for its token, a logout with its cookie by its user, its
      user's revocation of its id, and a password reset that went through for its user. */
  predicate Ends(c: Config, s: State, e: Event, row: RefreshRow) {
    match e.request
    case Refresh(cleartext) => e.reply.Issued? && row.hash == c.hmac(cleartext)
    case Logout(cookie, user) =>
      cookie.Some? && cookie.value != "" && row.hash == c.hmac(cookie.value) && row.user == user
    case RevokeSession(user, id) => row.id == id && row.user == user
    case ResetPassword(token, _) => e.reply == Done && row.user == TokenOwner(c, s, token, PasswordReset)
    case _ => false
  }

  /** Exactly these requests revoke a live row. */
  lemma RevokedIff(c: Config, s: State, e: Event, s': State, r: nat)
    requires Inv(s) && IsStep(c, s, e, s') && r < |s.sessions| && s.sessions[r].revokedAt.None?
    ensures r < |s'.sessions|
    ensures s'.sessions[r].revokedAt.Some? <==> Ends(c, s, e, s.sessions[r])
  {
    StepKeeps(c, s, e, s');
    if e.request.Refresh? && s.sessions[r].hash == c.hmac(e.request.cleartext) {
      FirstIsTheRow(c, s, e.request.cleartext, r);
    }
  }

  /** Event `k` ends the session of this row. */
  predicate EndsAt(c: Config, states: seq<State>, events: seq<Event>, k: int, row: RefreshRow)
    requires |states| == |events| + 1
  {
    0 <= k < |events| && Ends(c, states[k], events[k], row)
  }

  /** The row as it was drawn. */
  lemma SameRow(a: State, b: State, r: nat)
    requires Later(a.sessions, b.sessions) && r < |a.sessions|
    ensures r < |b.sessions| && b.sessions[r].(revokedAt := a.sessions[r].revokedAt) == a.sessions[r]
  {
  }

  lemma LiveStep(c: Config, states: seq<State>, events: seq<Event>, i: nat, j: nat, r: nat)
    requires IsRun(c, states, events) && i <= j < |events| && r < |states[i].sessions|
    ensures r < |states[j].sessions| && r < |states[j + 1].sessions|
    ensures states[j + 1].sessions[r].revokedAt.Some?
            <==> states[j].sessions[r].revokedAt.Some? || EndsAt(c, states, events, j, states[i].sessions[r])
  {
    NothingIsCleared(c, states, events, i, j);
    SameRow(states[i], states[j], r);
    StepAt(c, states, events, j);
    if states[j].sessions[r].revokedAt.None? { RevokedIff(c, states[j], events[j], states[j + 1], r); }
  }

  /** A row that was live stays so exactly until a request that ends its session. */
  lemma {:induction false} LiveUntilEnded(c: Config, states: seq<State>, events: seq<Event>, i: nat, j: nat, r: nat)
    requires IsRun(c, states, events) && i <= j <= |events|
    requires r < |states[i].sessions| && states[i].sessions[r].revokedAt.None?
    ensures r < |states[j].sessions|
    ensures states[j].sessions[r].revokedAt.Some?
            <==> exists k :: i <= k < j && EndsAt(c, states, events, k, states[i].sessions[r])
  {
    if i < j {
      LiveUntilEnded(c, states, events, i, j - 1, r);
      LiveStep(c, states, events, i, j - 1, r);
    }
  }

  lemma LiveRowRefreshes(c: Config, s: State, cleartext: string, r: nat, m: Minted)
    requires Inv(s) && r < |s.sessions| && cleartext != "" && s.sessions[r].hash == c.hmac(cleartext)
    requires s.sessions[r].expiresAt >= m.now
    ensures Answer(c, s, Refresh(cleartext), m).Issued? <==> s.sessions[r].revokedAt.None?
  {
    RefreshGrantedIff(c, s, cleartext, m);
    if Answer(c, s, Refresh(cleartext), m).Issued? {
      var k :| 0 <= k < |s.sessions| && s.sessions[k].hash == c.hmac(cleartext) && s.sessions[k].revokedAt.None?;
      assert k == r;
    }
  }

  /** Reuse detection revokes nothing, over any run: after the refusal every session that was live, the owner's among
      them, is refreshed at any time up to its expiry exactly until a later refresh, logout, revocation or password
      reset of its own ends it. */
  lemma ReuseSparesSessionsIff(c: Config, states: seq<State>, events: seq<Event>, i: nat, j: nat, r: nat,
                               cleartext: string, m: Minted)
    requires IsRun(c, states, events) && i < j <= |events|
    requires events[i].request.Refresh? && events[i].reply == Refused(RefreshTokenReuse)
    requires r < |states[i].sessions| && states[i].sessions[r].revokedAt.None?
    requires cleartext != "" && states[i].sessions[r].hash == c.hmac(cleartext)
          && states[i].sessions[r].expiresAt >= m.now
    ensures Answer(c, states[j], Refresh(cleartext), m).Issued?
            <==> !exists k :: i < k < j && EndsAt(c, states, events, k, states[i].sessions[r])
  {
    StepAt(c, states, events, i);
    ReuseIsUndone(c, states[i], events[i].request.cleartext, events[i].minted);
    LiveUntilEnded(c, states, events, i + 1, j, r);
    NothingIsCleared(c, states, events, i, j);
    RunKeepsInv(c, states, events, j);
    LiveRowRefreshes(c, states[j], cleartext, r, m);
  }

  // ---- such a run ---------------------------------------------------------

  /** The requests of one user: register, verify the address, log in, refresh, and refresh with the first token
      again. */
  function Visit(email: string, password: string, now: int): seq<(Request, Minted)> {
    [(Register(email, password, "w", "t"), Minted("u", "verify", now)),
     (VerifyEmail("verify"), Minted("x", "", now)),
     (Login(email, password, false), Minted("a", "first", now)),
     (Refresh("first"), Minted("b", "second", now)),
     (Refresh("first"), Minted("y", "third", now))]
  }

  function VisitUser(c: Config, email: string, password: string, verified: bool): User {
    User("u", Address(email), c.hashPassword(password), true, verified, Some("t"))
  }

  function VisitToken(c: Config, now: int, used: Option<int>): AuthToken {
    AuthToken("u", EmailVerify, c.hmac("verify"), now + c.verifyTtl, used)
  }

  function VisitRow(c: Config, id: string, cleartext: string, now: int, revoked: Option<int>): RefreshRow {
    RefreshRow(id, "u", "t", c.hmac(cleartext), now + c.refreshTtl, revoked, "a")
  }

  /** The tables before the first request and after each of them. */
  function VisitStates(c: Config, email: string, password: string, now: int): seq<State> {
    var user, token := VisitUser(c, email, password, true), VisitToken(c, now, Some(now));
    var rotated := [VisitRow(c, "a", "first", now, Some(now)), VisitRow(c, "b", "second", now, None)];
    [State([], [], []),
     State([VisitUser(c, email, password, false)], [], [VisitToken(c, now, None)]),
     State([user], [], [token]),
     State([user], [VisitRow(c, "a", "first", now, None)], [token]),
     State([user], rotated, [token]),
     State([user], rotated, [token])]
  }

  function VisitEvents(c: Config, email: string, password: string, now: int): (events: seq<Event>)
    ensures |events| == 5
  {
    var requests, states := Visit(email, password, now), VisitStates(c, email, password, now);
    seq(5, k requires 0 <= k < 5 =>
      Event(requests[k].0, requests[k].1, Answer(c, states[k], requests[k].0, requests[k].1)))
  }

  /** Hashes tell the four tokens apart, the password is accepted and nothing expires at once. */
  ghost predicate VisitAllowed(c: Config, email: string, password: string) {
    && c.hmac("verify") != c.hmac("first") && c.hmac("verify") != c.hmac("second")
    && c.hmac("first") != c.hmac("second")
    && c.hmac("third") != c.hmac("verify") && c.hmac("third") != c.hmac("first") && c.hmac("third") != c.hmac("second")
    && c.hmac("") != c.hmac("verify")
    && c.strong(password, [Address(email), "w"]) && c.checkPassword(password, c.hashPassword(password))
    && c.verifyTtl >= 0 && c.refreshTtl >= 0
  }

  lemma VisitStep(c: Config, email: string, password: string, now: int, k: nat)
    requires VisitAllowed(c, email, password) && k < 5
    ensures StepHolds(c, VisitStates(c, email, password, now), VisitEvents(c, email, password, now), k)
  {
    match k
    case 0 => VisitRegisters(c, email, password, now);
    case 1 => VisitVerifies(c, email, password, now);
    case 2 => VisitLogsIn(c, email, password, now);
    case _ => VisitRefreshes(c, email, password, now);
  }

  lemma VisitRegisters(c: Config, email: string, password: string, now: int)
    requires VisitAllowed(c, email, password)
    ensures var states, q := VisitStates(c, email, password, now), Visit(email, password, now)[0];
            Fresh(c, states[0], q.1) && Committed(c, states[0], q.0, q.1) == states[1]
  {
  }

  lemma VisitVerifies(c: Config, email: string, password: string, now: int)
    requires VisitAllowed(c, email, password)
    ensures var states, q := VisitStates(c, email, password, now), Visit(email, password, now)[1];
            Fresh(c, states[1], q.1) && Committed(c, states[1], q.0, q.1) == states[2]
  {
    var states := VisitStates(c, email, password, now);
    assert TokenWith(c.hmac("verify"), EmailVerify)(states[1].tokens[0]);
    assert MarkVerified(states[1].users, "u") == states[2].users;
    assert Used(states[1].tokens, 0, now) == states[2].tokens;
  }

  lemma VisitLogsIn(c: Config, email: string, password: string, now: int)
    requires VisitAllowed(c, email, password)
    ensures var states, q := VisitStates(c, email, password, now), Visit(email, password, now)[2];
            Fresh(c, states[2], q.1) && Committed(c, states[2], q.0, q.1) == states[3]
  {
    var user := VisitUser(c, email, password, true);
    assert UserWithEmail(Address(email))(user) && UserWithId("u")(user);
  }

  lemma VisitRefreshes(c: Config, email: string, password: string, now: int)
    requires VisitAllowed(c, email, password)
    ensures var states, q := VisitStates(c, email, password, now), Visit(email, password, now);
            && Fresh(c, states[3], q[3].1) && Committed(c, states[3], q[3].0, q[3].1) == states[4]
            && Fresh(c, states[4], q[4].1) && Committed(c, states[4], q[4].0, q[4].1) == states[5]
            && Answer(c, states[4], q[4].0, q[4].1) == Refused(RefreshTokenReuse)
  {
    var states := VisitStates(c, email, password, now);
    assert WithHash(c.hmac("first"))(states[3].sessions[0]);
    assert WithHash(c.hmac("first"))(states[4].sessions[0]);
  }

  /** A registration, a login, a rotation, and the rotated token again: a run from empty tables in which the last
      request is refused as reused, while the session it should have ended is refreshed right after it. */
  lemma ReuseLeavesSessionLive(c: Config, email: string, password: string, now: int, m: Minted)
    returns (states: seq<State>, events: seq<Event>)
    requires VisitAllowed(c, email, password) && m.now <= now + c.refreshTtl
    ensures IsRun(c, states, events) && states[0] == State([], [], []) && |events| == 5
    ensures events[4].request == Refresh("first") && events[4].reply == Refused(RefreshTokenReuse)
    ensures Answer(c, states[5], Refresh("second"), m).Issued?
  {
    states, events := VisitStates(c, email, password, now), VisitEvents(c, email, password, now);
    forall k | 0 <= k < 5 ensures StepHolds(c, states, events, k) { VisitStep(c, email, password, now, k); }
    VisitRefreshes(c, email, password, now);
    RunKeepsInv(c, states, events, 5);
    LiveRowRefreshes(c, states[5], "second", 1, m);
  }

  // ---- one-shot tokens ----------------------------------------------------

  /** A request that used up a one-shot token. */
  ghost predicate Consumes(e: Event, cleartext: string, kind: TokenKind) {
    match kind
    case EmailVerify => e.request == VerifyEmail(cleartext) && e.reply.Verified?
    case PasswordReset => e.request.ResetPassword? && e.request.token == cleartext && e.reply == Done
  }

  /** Row `i` is the row of this one-shot token, and it is used. */
  ghost predicate UsedRow(c: Config, s: State, cleartext: string, kind: TokenKind, i: nat) {
    && cleartext != "" && i < |s.tokens| && s.tokens[i].hash == c.hmac(cleartext)
    && s.tokens[i].kind == kind && s.tokens[i].usedAt.Some?
  }

  lemma ConsumeSpends(c: Config, s: State, e: Event, s': State, cleartext: string, kind: TokenKind) returns (i: nat)
    requires IsStep(c, s, e, s') && Consumes(e, cleartext, kind)
    ensures UsedRow(c, s', cleartext, kind, i)
  {
    i := Consume(c, s.tokens, cleartext, kind, e.minted.now).value;
  }

  lemma FirstIsTheToken(c: Config, s: State, cleartext: string, kind: TokenKind, i: nat)
    requires Inv(s) && i < |s.tokens| && s.tokens[i].hash == c.hmac(cleartext) && s.tokens[i].kind == kind
    ensures First(s.tokens, TokenWith(c.hmac(cleartext), kind)) == Some(i)
  {
    FirstFinds(s.tokens, TokenWith(c.hmac(cleartext), kind));
    assert TokenWith(c.hmac(cleartext), kind)(s.tokens[i]);
  }

  lemma UsedIsRefused(c: Config, s: State, cleartext: string, kind: TokenKind, i: nat, now: int)
    requires Inv(s) && UsedRow(c, s, cleartext, kind, i)
    ensures Consume(c, s.tokens, cleartext, kind, now) == Err(AuthTokenAlreadyUsed)
  {
    FirstIsTheToken(c, s, cleartext, kind, i);
  }

  lemma UsedStaysUsed(c: Config, a: State, b: State, cleartext: string, kind: TokenKind, i: nat)
    requires UsedRow(c, a, cleartext, kind, i) && LaterTokens(a.tokens, b.tokens)
    ensures UsedRow(c, b, cleartext, kind, i)
  {
  }

  /** Once consumed, a verification or reset token is refused as used for the rest of the run. */
  lemma ConsumedIsUsedEverAfter(c: Config, states: seq<State>, events: seq<Event>, i: nat, j: nat, cleartext: string,
                                kind: TokenKind, now: int)
    requires IsRun(c, states, events) && i < j <= |events| && Consumes(events[i], cleartext, kind)
    ensures Consume(c, states[j].tokens, cleartext, kind, now) == Err(AuthTokenAlreadyUsed)
  {
    StepAt(c, states, events, i);
    var a := ConsumeSpends(c, states[i], events[i], states[i + 1], cleartext, kind);
    NothingIsCleared(c, states, events, i + 1, j);
    UsedStaysUsed(c, states[i + 1], states[j], cleartext, kind, a);
    RunKeepsInv(c, states, events, j);
    UsedIsRefused(c, states[j], cleartext, kind, a, now);
  }

  /** Each verification or reset token is consumed at most once. */
  lemma NoTokenConsumedTwice(c: Config, states: seq<State>, events: seq<Event>, i: nat, j: nat, cleartext: string,
                             kind: TokenKind)
    requires IsRun(c, states, events) && i < j < |events| && Consumes(events[i], cleartext, kind)
    ensures !Consumes(events[j], cleartext, kind)
  {
    ConsumedIsUsedEverAfter(c, states, events, i, j, cleartext, kind, events[j].minted.now);
    assert StepHolds(c, states, events, j);
  }

  /** A weak new password leaves the reset token usable: marking it is part of the dropped transaction. */
  lemma WeakPasswordSparesToken(c: Config, s: State, token: string, weak: string, strong: string, m: Minted)
    requires Inv(s) && Answer(c, s, ResetPassword(token, weak), m) == Refused(WeakPassword)
    requires forall inputs :: c.strong(strong, inputs)
    ensures Consume(c, Pending(c, s, ResetPassword(token, weak), m).0.tokens, token, PasswordReset, m.now)
         == Err(AuthTokenAlreadyUsed)
    ensures Answer(c, Committed(c, s, ResetPassword(token, weak), m), ResetPassword(token, strong), m) == Done
  {
    var i := Consume(c, s.tokens, token, PasswordReset, m.now).value;
    var pending := Pending(c, s, ResetPassword(token, weak), m).0;
    assert pending.tokens == Used(s.tokens, i, m.now);
    FirstIsTheToken(c, pending, token, PasswordReset, i);
  }

  // ---- how many sessions are live -----------------------------------------

  function Live(rows: seq<RefreshRow>): nat {
    if rows == [] then 0 else Live(rows[..|rows| - 1]) + if rows[|rows| - 1].revokedAt.None? then 1 else 0
  }

  function IsLogin(e: Event): nat {
    if e.reply.Issued? && !e.request.Refresh? then 1 else 0
  }

  function Logins(events: seq<Event>): nat {
    if events == [] then 0 else Logins(events[..|events| - 1]) + IsLogin(events[|events| - 1])
  }

  lemma {:induction false} RevokingLowersLive(rows: seq<RefreshRow>, p: RefreshRow -> bool, now: int)
    ensures Live(RevokeWhere(rows, p, now)) <= Live(rows)
  {
    if rows != [] {
      var n := |rows| - 1;
      assert RevokeWhere(rows, p, now)[..n] == RevokeWhere(rows[..n], p, now);
      RevokingLowersLive(rows[..n], p, now);
    }
  }

  lemma {:induction false} RevokingOneLowersLive(rows: seq<RefreshRow>, i: nat, now: int)
    requires i < |rows| && rows[i].revokedAt.None?
    ensures Live(rows[i := Revoked(rows[i], now)]) + 1 == Live(rows)
  {
    var n := |rows| - 1;
    if i == n {
      assert rows[i := Revoked(rows[i], now)][..n] == rows[..n];
    } else {
      assert rows[i := Revoked(rows[i], now)][..n] == rows[..n][i := Revoked(rows[i], now)];
      RevokingOneLowersLive(rows[..n], i, now);
    }
  }

  lemma LiveOfAppended(rows: seq<RefreshRow>, row: RefreshRow)
    ensures Live(rows + [row]) == Live(rows) + if row.revokedAt.None? then 1 else 0
  {
    assert (rows + [row])[..|rows|] == rows;
  }

  /** An accepted refresh replaces one live session by another. */
  lemma RefreshKeepsLive(c: Config, s: State, cleartext: string, m: Minted)
    requires Answer(c, s, Refresh(cleartext), m).Issued?
    ensures Live(Committed(c, s, Refresh(cleartext), m).sessions) == Live(s.sessions)
  {
    var i := RowOf(c, s, cleartext);
    RevokingOneLowersLive(s.sessions, i, m.now);
    var row := s.sessions[i];
    LiveOfAppended(s.sessions[i := Revoked(row, m.now)], NewRow(c, row.user, row.tenant, row.chain, m));
  }

  lemma StepLive(c: Config, s: State, e: Event, s': State)
    requires IsStep(c, s, e, s')
    ensures Live(s'.sessions) <= Live(s.sessions) + IsLogin(e)
  {
    match e.request
    case Refresh(cleartext) => if e.reply.Issued? { RefreshKeepsLive(c, s, cleartext, e.minted); }
    case Login(_, _, _) => if e.reply.Issued? { LiveOfAppended(s.sessions, s'.sessions[|s.sessions|]); }
    case FinishMfaLogin(_) => if e.reply.Issued? { LiveOfAppended(s.sessions, s'.sessions[|s.sessions|]); }
    case Logout(cookie, user) =>
      if cookie.Some? { RevokingLowersLive(s.sessions, OfCookie(c.hmac(cookie.value), user), e.minted.now); }
    case RevokeSession(user, id) => RevokingLowersLive(s.sessions, OfId(id, user), e.minted.now);
    case ResetPassword(token, _) =>
      if e.reply == Done {
        var t := Consume(c, s.tokens, token, PasswordReset, e.minted.now).value;
        var u := First(s.users, UserWithId(s.tokens[t].user)).value;
        RevokingLowersLive(s.sessions, OfUser(s.users[u].id), e.minted.now);
      }
    case _ =>
  }

  /** Only logins add live sessions: rotation keeps their number, everything else can only lower it. */
  lemma {:induction false} LiveSessionsComeFromLogins(c: Config, states: seq<State>, events: seq<Event>, n: nat)
    requires IsRun(c, states, events) && n <= |events|
    ensures Live(states[n].sessions) <= Live(states[0].sessions) + Logins(events[..n])
  {
    if n > 0 {
      LiveSessionsComeFromLogins(c, states, events, n - 1);
      assert StepHolds(c, states, events, n - 1);
      StepLive(c, states[n - 1], events[n - 1], states[n]);
      assert events[..n][..n - 1] == events[..n - 1];
    }
  }

  // ---- how long a session lasts -------------------------------------------

  /** Request `k` made row `r`: under the id, the hash and the time drawn for it. */
  ghost predicate BornAt(c: Config, states: seq<State>, events: seq<Event>, k: nat, r: nat)
    requires |states| == |events| + 1
  {
    && k < |events| && |states[k].sessions| == r && |states[k + 1].sessions| == r + 1
    && BornOf(c, events[k].minted, states[k + 1].sessions[r]) && states[k + 1].sessions[r].revokedAt.None?
  }

  ghost predicate BornOf(c: Config, m: Minted, row: RefreshRow) {
    row.id == m.id && row.hash == c.hmac(m.cleartext) && row.expiresAt == m.now + c.refreshTtl
  }

  /** A request makes one row at most. */
  lemma StepBears(c: Config, s: State, e: Event, s': State)
    requires IsStep(c, s, e, s')
    ensures |s.sessions| <= |s'.sessions| <= |s.sessions| + 1
    ensures |s'.sessions| > |s.sessions| ==>
              BornOf(c, e.minted, s'.sessions[|s.sessions|]) && s'.sessions[|s.sessions|].revokedAt.None?
  {
  }

  /** Over any run, every row that was not there at the start was made by one of its requests, and still has the id, the
      hash and the expiry it was made with. */
  lemma {:induction false} RowsKeepTheirExpiry(c: Config, states: seq<State>, events: seq<Event>, n: nat, r: nat)
    returns (k: nat)
    requires IsRun(c, states, events) && n <= |events| && |states[0].sessions| <= r < |states[n].sessions|
    ensures k < n && BornAt(c, states, events, k, r) && BornOf(c, events[k].minted, states[n].sessions[r])
  {
    StepAt(c, states, events, n - 1);
    StepBears(c, states[n - 1], events[n - 1], states[n]);
    if r < |states[n - 1].sessions| {
      k := RowsKeepTheirExpiry(c, states, events, n - 1, r);
    } else {
      k := n - 1;
    }
  }

  /** Over any run from empty tables, a refresh token is accepted no later than its time after the request that handed
      it out. */
  lemma RefreshOnlyInTime(c: Config, states: seq<State>, events: seq<Event>, j: nat, cleartext: string)
    returns (k: nat)
    requires IsRun(c, states, events) && states[0].sessions == []
    requires j < |events| && AcceptsRefresh(events[j], cleartext)
    ensures k < j && c.hmac(events[k].minted.cleartext) == c.hmac(cleartext)
    ensures events[j].minted.now <= events[k].minted.now + c.refreshTtl
  {
    StepAt(c, states, events, j);
    RefreshGrantedIff(c, states[j], cleartext, events[j].minted);
    var r :| 0 <= r < |states[j].sessions| && states[j].sessions[r].hash == c.hmac(cleartext)
      && states[j].sessions[r].revokedAt.None? && states[j].sessions[r].expiresAt >= events[j].minted.now;
    k := RowsKeepTheirExpiry(c, states, events, j, r);
  }
}
