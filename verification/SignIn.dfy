/** Both halves of a login in one state: accounts and sessions, and each user's second factor. */
module SignIn {
  import opened Wrappers
  import A = Accounts
  import F = SecondFactor

  datatype Config = Config(accounts: A.Config, factors: F.Config)

  /** A user without a row in the second-factor tables has none. */
  datatype State = State(accounts: A.State, factors: map<string, F.State>)

  /** `Password` is the first leg of a login and `Code` the second, whose pending token names the user. Everything else
      that concerns accounts or a user's second factor goes through `Account` and `Factor`. */
  datatype Request =
    | Password(email: string, password: string)
    | Code(user: string, code: string)
    | Account(account: A.Request)
    | Factor(owner: string, factor: F.Request)

  datatype Reply =
    | AccountReply(account: A.Reply)
    | FactorReply(factor: F.Reply)
    | SignedIn(session: A.Reply, via: F.Via)

  function FactorOf(s: State, user: string): F.State {
    if user in s.factors then s.factors[user] else F.State(None, [])
  }

  predicate HasFactor(s: State, user: string) { F.Active(FactorOf(s, user)) }

  /** What `_user_has_active_mfa` answers for the account of an address. */
  predicate AsksForCode(s: State, email: string) {
    match A.First(s.accounts.users, A.UserWithEmail(A.Address(email)))
    case None => false
    case Some(i) => HasFactor(s, s.accounts.users[i].id)
  }

  function FirstLeg(s: State, email: string, password: string): A.Request {
    A.Login(email, password, AsksForCode(s, email))
  }

  /** The verification of the second leg, told whether the session after it can be issued. */
  function Verification(c: Config, s: State, user: string, code: string, m: A.Minted): F.Request {
    F.VerifyLogin(code, A.Answer(c.accounts, s.accounts, A.FinishMfaLogin(user), m).Issued?)
  }

  function Step(c: Config, s: State, q: Request, m: A.Minted): (State, Reply) {
    match q
    case Password(email, password) => AccountStep(c, s, FirstLeg(s, email, password), m)
    case Account(account) => AccountStep(c, s, account, m)
    case Factor(owner, factor) =>
      (WithFactor(c, s, owner, factor, m), FactorReply(F.Answer(c.factors, FactorOf(s, owner), factor, m.now)))
    case Code(user, code) =>
      var verification := Verification(c, s, user, code, m);
      match F.Answer(c.factors, FactorOf(s, user), verification, m.now)
      case Passed(via) =>
        (State(A.Committed(c.accounts, s.accounts, A.FinishMfaLogin(user), m),
            WithFactor(c, s, user, verification, m).factors),
         SignedIn(A.Answer(c.accounts, s.accounts, A.FinishMfaLogin(user), m), via))
      case r => (s, FactorReply(r))
  }

  function AccountStep(c: Config, s: State, q: A.Request, m: A.Minted): (State, Reply) {
    (s.(accounts := A.Committed(c.accounts, s.accounts, q, m)), AccountReply(A.Answer(c.accounts, s.accounts, q, m)))
  }

  function WithFactor(c: Config, s: State, user: string, q: F.Request, m: A.Minted): State {
    s.(factors := s.factors[user := F.Committed(c.factors, FactorOf(s, user), q, m.now)])
  }

  /** A login's legs come as `Password` and `Code` only. */
  ghost predicate Admissible(q: Request) {
    match q
    case Account(account) => !account.Login? && !account.FinishMfaLogin?
    case Factor(_, factor) => !factor.VerifyLogin? && F.Admissible(factor)
    case _ => true
  }

  /** The request as the user's second factor sees it, if it does. */
  function Seen(c: Config, s: State, q: Request, m: A.Minted, user: string): Option<F.Request> {
    match q
    case Factor(owner, factor) => if owner == user then Some(factor) else None
    case Code(owner, code) => if owner == user then Some(Verification(c, s, user, code, m)) else None
    case _ => None
  }

  /** A user's second factor changes as its own requests say, and by no other request. */
  lemma FactorFollows(c: Config, s: State, q: Request, m: A.Minted, user: string)
    ensures FactorOf(Step(c, s, q, m).0, user)
         == match Seen(c, s, q, m, user)
            case Some(factor) => F.Committed(c.factors, FactorOf(s, user), factor, m.now)
            case None => FactorOf(s, user)
  {
  }
}
