/** Logins with both factors, over any run. */
module SignInRuns {
  import opened Wrappers
  import opened SignIn
  import RecoveryCodes
  import A = Accounts
  import F = SecondFactor
  import FR = SecondFactorRuns

  datatype Event = Event(request: Request, minted: A.Minted, reply: Reply)

  /** The pending token a second leg needs is handed out with a challenge, and by nothing else. */
  ghost predicate Challenged(events: seq<Event>, i: nat, user: string)
    requires i <= |events|
  {
    exists k :: 0 <= k < i && events[k].request.Password? && events[k].reply == AccountReply(A.Challenge(user))
  }

  ghost predicate StepHolds(c: Config, states: seq<State>, events: seq<Event>, i: nat)
    requires |states| == |events| + 1 && i < |events|
  {
    var s, e := states[i], events[i];
    && Admissible(e.request) && A.Fresh(c.accounts, s.accounts, e.minted)
    && (e.request.Code? ==> Challenged(events, i, e.request.user))
    && (states[i + 1], e.reply) == Step(c, s, e.request, e.minted)
  }

  /** A run from tables without users. */
  ghost predicate IsRun(c: Config, states: seq<State>, events: seq<Event>) {
    && F.Sound(c.factors) && |states| == |events| + 1 && states[0] == State(A.State([], [], []), map[])
    && forall i :: 0 <= i < |events| ==> StepHolds(c, states, events, i)
  }

  lemma StepKeepsInv(c: Config, s: State, q: Request, m: A.Minted)
    requires A.Inv(s.accounts) && A.Fresh(c.accounts, s.accounts, m)
    ensures A.Inv(Step(c, s, q, m).0.accounts)
  {
    match q
    case Password(email, password) => AccountKeepsInv(c, s, FirstLeg(s, email, password), m);
    case Account(account) => AccountKeepsInv(c, s, account, m);
    case Code(user, _) => AccountKeepsInv(c, s, A.FinishMfaLogin(user), m);
    case Factor(_, _) =>
  }

  lemma AccountKeepsInv(c: Config, s: State, q: A.Request, m: A.Minted)
    requires A.Inv(s.accounts) && A.Fresh(c.accounts, s.accounts, m)
    ensures A.Inv(A.Committed(c.accounts, s.accounts, q, m))
  {
    A.RequestKeepsSessions(c.accounts, s.accounts, q, m);
    A.RequestKeepsTokens(c.accounts, s.accounts, q, m);
    A.RequestKeepsUsers(c.accounts, s.accounts, q, m);
  }

  lemma {:induction false} RunKeepsInv(c: Config, states: seq<State>, events: seq<Event>, n: nat)
    requires IsRun(c, states, events) && n <= |events|
    ensures A.Inv(states[n].accounts)
  {
    if n > 0 {
      RunKeepsInv(c, states, events, n - 1);
      assert StepHolds(c, states, events, n - 1);
      StepKeepsInv(c, states[n - 1], events[n - 1].request, events[n - 1].minted);
    }
  }

  // ---- one user's second factor -------------------------------------------

  function FactorEvent(c: Config, s: State, user: string, q: F.Request, now: int): FR.Event {
    FR.Event(q, now, F.Answer(c.factors, FactorOf(s, user), q, now))
  }

  /** What the user's second factor saw of the first `n` requests. */
  function SeenBy(c: Config, states: seq<State>, events: seq<Event>, user: string, n: nat): seq<FR.Event>
    requires |states| == |events| + 1 && n <= |events|
  {
    if n == 0 then [] else
      var s, e := states[n - 1], events[n - 1];
      var before := SeenBy(c, states, events, user, n - 1);
      match Seen(c, s, e.request, e.minted, user)
      case None => before
      case Some(q) => before + [FactorEvent(c, s, user, q, e.minted.now)]
  }

  /** The states it went through. */
  function FactorStates(c: Config, states: seq<State>, events: seq<Event>, user: string, n: nat): seq<F.State>
    requires |states| == |events| + 1 && n <= |events|
  {
    if n == 0 then [FactorOf(states[0], user)] else
      var s, e := states[n - 1], events[n - 1];
      var before := FactorStates(c, states, events, user, n - 1);
      if Seen(c, s, e.request, e.minted, user).None? then before else before + [FactorOf(states[n], user)]
  }

  lemma OneMoreStep(c: F.Config, states: seq<F.State>, events: seq<FR.Event>, s': F.State, e: FR.Event)
    requires FR.IsRun(c, states, events) && F.Admissible(e.request)
    requires s' == F.Committed(c, states[|events|], e.request, e.now)
    requires e.reply == F.Answer(c, states[|events|], e.request, e.now)
    ensures FR.IsRun(c, states + [s'], events + [e])
  {
    forall i | 0 <= i < |events + [e]| ensures FR.StepHolds(c, states + [s'], events + [e], i) {
      if i < |events| { assert FR.StepHolds(c, states, events, i); }
    }
  }

  /** What a user's second factor sees of a run is a run of its own, up to the state it is in. */
  lemma {:induction false} FactorRun(c: Config, states: seq<State>, events: seq<Event>, user: string, n: nat)
    requires IsRun(c, states, events) && n <= |events|
    ensures var seen, went := SeenBy(c, states, events, user, n), FactorStates(c, states, events, user, n);
            FR.IsRun(c.factors, went, seen) && went[|seen|] == FactorOf(states[n], user)
  {
    if n > 0 {
      var s, e := states[n - 1], events[n - 1];
      FactorRun(c, states, events, user, n - 1);
      assert StepHolds(c, states, events, n - 1);
      FactorFollows(c, s, e.request, e.minted, user);
      match Seen(c, s, e.request, e.minted, user)
      case None =>
      case Some(q) =>
        OneMoreStep(c.factors, FactorStates(c, states, events, user, n - 1), SeenBy(c, states, events, user, n - 1),
                    FactorOf(states[n], user), FactorEvent(c, s, user, q, e.minted.now));
    }
  }

  // ---- a session needs both factors ---------------------------------------

  /** Request `i` began a session of this user, as a login does: a row that heads a chain of its own. */
  ghost predicate BeginsSession(states: seq<State>, events: seq<Event>, i: nat, user: string)
    requires |states| == |events| + 1 && i < |events|
  {
    var n, after := |states[i].accounts.sessions|, states[i + 1].accounts.sessions;
    n < |after| && after[n].user == user && after[n].chain == events[i].minted.id
  }

  /** The first leg passed for this user: address and password were those of an active, verified account. */
  ghost predicate PasswordPassed(c: Config, states: seq<State>, events: seq<Event>, k: int, user: string)
    requires |states| == |events| + 1
  {
    && 0 <= k < |events| && events[k].request.Password?
    && exists u :: A.Admitted(c.accounts, states[k].accounts, events[k].request.email, events[k].request.password, u)
                   && states[k].accounts.users[u].id == user
  }

  /** The second leg passed in request `i`: the method was active, and the code typed was six digits right for its
      secret and time, or else verified against an unused recovery code of the user. */
  ghost predicate CodePassed(c: Config, states: seq<State>, events: seq<Event>, i: nat, user: string)
    requires |states| == |events| + 1 && i < |events|
  {
    && events[i].request.Code? && events[i].request.user == user && events[i].reply.SignedIn?
    && match events[i].reply.via
       case Totp => F.PassesAsTotp(c.factors, FactorOf(states[i], user), events[i].request.code, events[i].minted.now)
       case Recovery => F.PassesAsRecovery(c.factors, FactorOf(states[i], user), events[i].request.code)
  }

  /** No request on accounts but the two legs begins a session. */
  lemma OnlyLegsBegin(c: Config, states: seq<State>, events: seq<Event>, i: nat, user: string)
    requires IsRun(c, states, events) && i < |events| && BeginsSession(states, events, i, user)
    ensures events[i].request.Password? || events[i].request.Code?
  {
    assert StepHolds(c, states, events, i);
    var e := events[i];
    if e.request.Account? && e.request.account.Refresh? {
      RefreshBeginsNone(c, states[i], e.request.account.cleartext, e.minted);
    }
  }

  /** A refresh continues a chain. */
  lemma RefreshBeginsNone(c: Config, s: State, cleartext: string, m: A.Minted)
    requires A.Fresh(c.accounts, s.accounts, m)
    ensures var n, after := |s.accounts.sessions|,
            A.Committed(c.accounts, s.accounts, A.Refresh(cleartext), m).sessions;
            n < |after| ==> after[n].chain != m.id
  {
    var found := A.First(s.accounts.sessions, A.WithHash(c.accounts.hmac(cleartext)));
    if found.Some? { assert s.accounts.sessions[found.value].chain != m.id; }
  }

  lemma PasswordBegins(c: Config, states: seq<State>, events: seq<Event>, i: nat, user: string)
    requires IsRun(c, states, events) && i < |events| && BeginsSession(states, events, i, user)
    requires events[i].request.Password?
    ensures PasswordPassed(c, states, events, i, user) && !HasFactor(states[i], user)
  {
    assert StepHolds(c, states, events, i);
    RunKeepsInv(c, states, events, i);
    var s, e := states[i], events[i];
    var email, password := e.request.email, e.request.password;
    A.LoginPassesIff(c.accounts, s.accounts, email, password, AsksForCode(s, email), e.minted);
    A.OneAccount(c.accounts, s.accounts, email, password);
  }

  lemma ChallengedMeansPassword(c: Config, states: seq<State>, events: seq<Event>, k: nat, user: string)
    requires IsRun(c, states, events) && k < |events|
    requires events[k].request.Password? && events[k].reply == AccountReply(A.Challenge(user))
    ensures PasswordPassed(c, states, events, k, user)
  {
    assert StepHolds(c, states, events, k);
    RunKeepsInv(c, states, events, k);
    var s, q := states[k], events[k].request;
    A.LoginPassesIff(c.accounts, s.accounts, q.email, q.password, AsksForCode(s, q.email), events[k].minted);
  }

  lemma CodeBegins(c: Config, states: seq<State>, events: seq<Event>, i: nat, user: string)
    requires IsRun(c, states, events) && i < |events| && BeginsSession(states, events, i, user)
          && events[i].request.Code?
    ensures CodePassed(c, states, events, i, user) && exists k :: k < i && PasswordPassed(c, states, events, k, user)
  {
    assert StepHolds(c, states, events, i);
    var k :| 0 <= k < i && events[k].request.Password? && events[k].reply == AccountReply(A.Challenge(user));
    ChallengedMeansPassword(c, states, events, k, user);
    F.VerifyStepVerifies(c.factors, FactorOf(states[i], user), events[i].request.code, events[i].minted.now);
  }

  /** Over any run, every session a login begins follows a password that passed for its user; and if the user's second
      factor is active, it is begun by a second leg whose code was verified, after an earlier first leg. */
  lemma SessionNeedsBothFactors(c: Config, states: seq<State>, events: seq<Event>, i: nat, user: string)
    requires IsRun(c, states, events) && i < |events| && BeginsSession(states, events, i, user)
    ensures exists k :: k <= i && PasswordPassed(c, states, events, k, user)
    ensures HasFactor(states[i], user) ==>
              CodePassed(c, states, events, i, user) && exists k :: k < i && PasswordPassed(c, states, events, k, user)
  {
    OnlyLegsBegin(c, states, events, i, user);
    if events[i].request.Password? {
      PasswordBegins(c, states, events, i, user);
    } else {
      CodeBegins(c, states, events, i, user);
    }
  }

  // ---- what a recovery code pays for --------------------------------------

  /** A second leg of this user that a recovery code passed. */
  predicate PaysWithCode(e: Event, user: string) {
    e.request.Code? && e.request.user == user && e.reply.SignedIn? && e.reply.via == F.Recovery
  }

  /** A new set of codes for this user. */
  predicate MintsFor(e: Event, user: string) {
    e.request.Factor? && e.request.owner == user && e.reply.FactorReply? && e.reply.factor.Codes?
  }

  /** Sessions of the user begun with recovery codes of the current set. */
  function PaidSinceMint(events: seq<Event>, user: string): nat {
    if events == [] then 0 else
      var last, before := events[|events| - 1], PaidSinceMint(events[..|events| - 1], user);
      if MintsFor(last, user) then 0 else before + if PaysWithCode(last, user) then 1 else 0
  }

  predicate EverMintedFor(events: seq<Event>, user: string) {
    events != [] && (MintsFor(events[|events| - 1], user) || EverMintedFor(events[..|events| - 1], user))
  }

  /** A recovery code that passes begins exactly one session; a second leg that does not pass changes nothing. */
  lemma CodeBeginsOneSession(c: Config, states: seq<State>, events: seq<Event>, i: nat)
    requires IsRun(c, states, events) && i < |events| && events[i].request.Code?
    ensures var user := events[i].request.user;
            if events[i].reply.SignedIn?
            then A.Opened(c.accounts, states[i].accounts, states[i + 1].accounts, user, events[i].reply.session,
                events[i].minted)
                 && BeginsSession(states, events, i, user)
            else states[i + 1] == states[i]
  {
    assert StepHolds(c, states, events, i);
  }

  lemma SeenReplies(c: Config, s: State, q: Request, m: A.Minted, user: string)
    requires Admissible(q)
    ensures var e := Event(q, m, Step(c, s, q, m).1);
            match Seen(c, s, q, m, user)
            case None => !PaysWithCode(e, user) && !MintsFor(e, user)
            case Some(factor) =>
              && (FR.AcceptsCode(FactorEvent(c, s, user, factor, m.now)) <==> PaysWithCode(e, user))
              && (FR.Mints(FactorEvent(c, s, user, factor, m.now)) <==> MintsFor(e, user))
  {
  }

  lemma CountsOneMore(seen: seq<FR.Event>, e: FR.Event)
    ensures FR.AcceptedSinceMint(seen + [e])
         == if FR.Mints(e) then 0 else FR.AcceptedSinceMint(seen) + if FR.AcceptsCode(e) then 1 else 0
    ensures FR.EverMinted(seen + [e]) == (FR.Mints(e) || FR.EverMinted(seen))
  {
    assert (seen + [e])[..|seen|] == seen;
  }

  lemma {:induction false} SeenCounts(c: Config, states: seq<State>, events: seq<Event>, user: string, n: nat)
    requires IsRun(c, states, events) && n <= |events|
    ensures FR.AcceptedSinceMint(SeenBy(c, states, events, user, n)) == PaidSinceMint(events[..n], user)
    ensures FR.EverMinted(SeenBy(c, states, events, user, n)) == EverMintedFor(events[..n], user)
  {
    if n > 0 {
      var s, e := states[n - 1], events[n - 1];
      SeenCounts(c, states, events, user, n - 1);
      assert events[..n][..n - 1] == events[..n - 1];
      assert Admissible(e.request) && e == Event(e.request, e.minted, Step(c, s, e.request, e.minted).1) by {
        assert StepHolds(c, states, events, n - 1);
      }
      SeenReplies(c, s, e.request, e.minted, user);
      match Seen(c, s, e.request, e.minted, user)
      case None =>
      case Some(q) =>
        CountsOneMore(SeenBy(c, states, events, user, n - 1), FactorEvent(c, s, user, q, e.minted.now));
    }
  }

  /** Over any run, the user's unused recovery codes and the sessions begun with codes of the set add up to the set:
      ten codes, or none before the first. */
  lemma CodesPayForSessions(c: Config, states: seq<State>, events: seq<Event>, user: string, n: nat)
    requires IsRun(c, states, events) && n <= |events|
    ensures var codes := FactorOf(states[n], user).codes;
            && |codes| == (if EverMintedFor(events[..n], user) then RecoveryCodes.TOTAL_CODES else 0)
            && FR.Unused(codes) + PaidSinceMint(events[..n], user) == |codes|
  {
    var seen, went := SeenBy(c, states, events, user, n), FactorStates(c, states, events, user, n);
    FactorRun(c, states, events, user, n);
    SeenCounts(c, states, events, user, n);
    FR.CodesAreConserved(c.factors, went, seen, |seen|);
    assert seen[..|seen|] == seen;
  }

  lemma {:induction false} SeenGrows(c: Config, states: seq<State>, events: seq<Event>, user: string, i: nat, j: nat)
    requires IsRun(c, states, events) && i <= j <= |events|
    requires forall m :: i <= m < j ==> !MintsFor(events[m], user)
    ensures SeenBy(c, states, events, user, i) <= SeenBy(c, states, events, user, j)
    ensures var seen := SeenBy(c, states, events, user, j);
            forall m :: |SeenBy(c, states, events, user, i)| <= m < |seen| ==> !FR.Mints(seen[m])
  {
    if i < j {
      SeenGrows(c, states, events, user, i, j - 1);
      assert StepHolds(c, states, events, j - 1);
      SeenReplies(c, states[j - 1], events[j - 1].request, events[j - 1].minted, user);
    }
  }

  /** What a paying request looks like to the second factor. */
  lemma PayingIsSeen(c: Config, states: seq<State>, events: seq<Event>, user: string, i: nat)
    requires IsRun(c, states, events) && i < |events| && PaysWithCode(events[i], user)
    ensures var seen := SeenBy(c, states, events, user, i);
            var e := FactorEvent(c, states[i], user, F.VerifyLogin(events[i].request.code, true), events[i].minted.now);
            SeenBy(c, states, events, user, i + 1) == seen + [e] && FR.AcceptsCode(e)
  {
    assert StepHolds(c, states, events, i);
    SeenReplies(c, states[i], events[i].request, events[i].minted, user);
  }

  /** Both payments, as the second factor sees them: with no new set of codes between them. */
  lemma PaymentsAreSeen(c: Config, states: seq<State>, events: seq<Event>, user: string, i: nat, j: nat)
    requires IsRun(c, states, events) && i < j < |events| && PaysWithCode(events[i], user)
          && PaysWithCode(events[j], user)
    requires forall m :: i < m < j ==> !MintsFor(events[m], user)
    ensures var a, b := |SeenBy(c, states, events, user, i)|, |SeenBy(c, states, events, user, j)|;
            var seen := SeenBy(c, states, events, user, j + 1);
            && a < b < |seen| && FR.AcceptsCode(seen[a]) && FR.AcceptsCode(seen[b])
            && seen[a].request == F.VerifyLogin(events[i].request.code, true)
            && seen[b].request == F.VerifyLogin(events[j].request.code, true)
            && forall m :: a < m < b ==> !FR.Mints(seen[m])
  {
    PayingIsSeen(c, states, events, user, i);
    PayingIsSeen(c, states, events, user, j);
    SeenGrows(c, states, events, user, i + 1, j);
  }

  /** However it is typed, a recovery code pays for at most one session of its user. */
  lemma NoCodePaysTwice(c: Config, states: seq<State>, events: seq<Event>, user: string, i: nat, j: nat)
    requires IsRun(c, states, events) && i < j < |events| && PaysWithCode(events[i], user)
          && PaysWithCode(events[j], user)
    requires forall m :: i < m < j ==> !MintsFor(events[m], user)
    ensures RecoveryCodes.Normalize(events[i].request.code) != RecoveryCodes.Normalize(events[j].request.code)
  {
    var seen, went := SeenBy(c, states, events, user, j + 1), FactorStates(c, states, events, user, j + 1);
    PaymentsAreSeen(c, states, events, user, i, j);
    FactorRun(c, states, events, user, j + 1);
    if RecoveryCodes.Normalize(events[i].request.code) == RecoveryCodes.Normalize(events[j].request.code) {
      FR.NoCodeAcceptedTwice(c.factors, went, seen, |SeenBy(c, states, events, user, i)|,
          |SeenBy(c, states, events, user, j)|);
    }
  }
}
