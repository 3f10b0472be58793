/** One user's second factor: enrolment, recovery codes, and the second leg of a login. */
module SecondFactor {
  import opened Wrappers
  import opened PythonText
  import opened RecoveryCodes

  datatype Method = Method(secret: string, verifiedAt: Option<int>)

  datatype CodeRow = CodeRow(hash: string, usedAt: Option<int>)

  /** The user's TOTP row, of which there is at most one, and the user's recovery-code rows. */
  datatype State = State(enrolled: Option<Method>, codes: seq<CodeRow>)

  /** Hashing and time-based codes, as given: `totp(secret, code, now)`. */
  datatype Config = Config(hash: string -> string, verify: (string, string) -> bool,
                           totp: (string, string, int) -> bool)

  /** Verification accepts exactly the string that was hashed. */
  ghost predicate Sound(c: Config) {
    forall n, m {:trigger c.verify(n, c.hash(m))} :: c.verify(n, c.hash(m)) <==> n == m
  }

  datatype MfaError = AlreadyConfigured | NotConfigured | SetupPending | InvalidCode | InvalidCredentials | LoginRefused

  datatype Via = Totp | Recovery

  /** `minted` are the codes drawn for a request, `loginIssues` whether the session can be issued afterwards. */
  datatype Request =
    | StartSetup(secret: string)
    | ConfirmSetup(code: string, minted: seq<string>)
    | VerifyLogin(code: string, loginIssues: bool)
    | Disable(passwordOk: bool, code: string)
    | Regenerate(passwordOk: bool, code: string, minted: seq<string>)

  datatype Reply = Started | Codes(shown: seq<string>) | Passed(via: Via) | Removed | Refused(error: MfaError)

  predicate Active(s: State) { s.enrolled.Some? && s.enrolled.value.verifiedAt.Some? }

  predicate Awaiting(s: State) { s.enrolled.Some? && s.enrolled.value.verifiedAt.None? }

  /** Drop every code, used or not, and store the new ones as hashes of what `Normalize` makes of them. */
  function Replaced(c: Config, minted: seq<string>): (rows: seq<CodeRow>)
    ensures |rows| == |minted|
  {
    seq(|minted|, i requires 0 <= i < |minted| => CodeRow(c.hash(Normalize(Grouped(minted[i]))), None))
  }

  function Shown(minted: seq<string>): (shown: seq<string>)
    ensures |shown| == |minted|
  {
    seq(|minted|, i requires 0 <= i < |minted| => Grouped(minted[i]))
  }

  /** The first unused row that verifies, by position. */
  function Candidate(c: Config, rows: seq<CodeRow>, n: string): (r: Option<nat>)
    ensures r.Some? ==> r.value < |rows| && rows[r.value].usedAt.None? && c.verify(n, rows[r.value].hash)
  {
    if rows == [] then None
    else if rows[0].usedAt.None? && c.verify(n, rows[0].hash) then Some(0)
    else match Candidate(c, rows[1..], n)
         case None => None
         case Some(i) => Some(i + 1)
  }

  function UseRow(rows: seq<CodeRow>, i: nat, now: int): (r: seq<CodeRow>)
    requires i < |rows|
    ensures |r| == |rows|
  {
    rows[i := rows[i].(usedAt := Some(now))]
  }

  // ---- the requests, up to the end of their transaction -------------------

  function StartStep(s: State, secret: string): (State, Reply) {
    if Active(s) then (s, Refused(AlreadyConfigured)) else (s.(enrolled := Some(Method(secret, None))), Started)
  }

  function ConfirmStep(c: Config, s: State, code: string, minted: seq<string>, now: int): (State, Reply) {
    if !Awaiting(s) then (s, Refused(SetupPending))
    else if !c.totp(s.enrolled.value.secret, code, now) then (s, Refused(InvalidCode))
    else (State(Some(s.enrolled.value.(verifiedAt := Some(now))), Replaced(c, minted)), Codes(Shown(minted)))
  }

  /** The second leg of a login: six digits are a time-based code, anything else a recovery code. */
  function VerifyStep(c: Config, s: State, code: string, now: int): (State, Reply) {
    if !Active(s) then (s, Refused(NotConfigured))
    else if LooksLikeTotp(code) then
      var right := c.totp(s.enrolled.value.secret, Remove(PythonText.Strip(code), ' '), now);
      (s, if right then Passed(Totp) else Refused(InvalidCode))
    else
      match Candidate(c, s.codes, Normalize(code))
      case None => (s, Refused(InvalidCode))
      case Some(i) => (s.(codes := UseRow(s.codes, i, now)), Passed(Recovery))
  }

  /** A verified code is spent in the transaction that issues the session. */
  function LoginStep(c: Config, s: State, code: string, loginIssues: bool, now: int): (State, Reply) {
    var (pending, reply) := VerifyStep(c, s, code, now);
    if reply.Passed? && !loginIssues then (pending, Refused(LoginRefused)) else (pending, reply)
  }

  function Gate(c: Config, s: State, passwordOk: bool, code: string, now: int): Option<MfaError> {
    if !passwordOk then Some(InvalidCredentials)
    else if !Active(s) then Some(NotConfigured)
    else if !c.totp(s.enrolled.value.secret, code, now) then Some(InvalidCode)
    else None
  }

  /** Removes the method. The recovery codes stay: they hang on the user, not on the method. */
  function DisableStep(c: Config, s: State, passwordOk: bool, code: string, now: int): (State, Reply) {
    match Gate(c, s, passwordOk, code, now)
    case Some(e) => (s, Refused(e))
    case None => (s.(enrolled := None), Removed)
  }

  function RegenerateStep(c: Config, s: State, passwordOk: bool, code: string, minted: seq<string>, now: int)
      : (State, Reply)
  {
    match Gate(c, s, passwordOk, code, now)
    case Some(e) => (s, Refused(e))
    case None => (s.(codes := Replaced(c, minted)), Codes(Shown(minted)))
  }

  function Pending(c: Config, s: State, q: Request, now: int): (State, Reply) {
    match q
    case StartSetup(secret) => StartStep(s, secret)
    case ConfirmSetup(code, minted) => ConfirmStep(c, s, code, minted, now)
    case VerifyLogin(code, loginIssues) => LoginStep(c, s, code, loginIssues, now)
    case Disable(passwordOk, code) => DisableStep(c, s, passwordOk, code, now)
    case Regenerate(passwordOk, code, minted) => RegenerateStep(c, s, passwordOk, code, minted, now)
  }

  function Committed(c: Config, s: State, q: Request, now: int): State {
    var (pending, reply) := Pending(c, s, q, now);
    if reply.Refused? then s else pending
  }

  function Answer(c: Config, s: State, q: Request, now: int): Reply { Pending(c, s, q, now).1 }

  // ---- what every request keeps -------------------------------------------

  /** No string verifies against two rows. */
  ghost predicate Apart(c: Config, rows: seq<CodeRow>) {
    forall i, j, n {:trigger c.verify(n, rows[i].hash), c.verify(n, rows[j].hash)} ::
      0 <= i < j < |rows| ==> !(c.verify(n, rows[i].hash) && c.verify(n, rows[j].hash))
  }

  /** Ten codes as drawn, all different. */
  ghost predicate ProperMint(minted: seq<string>) {
    && |minted| == TOTAL_CODES
    && (forall i :: 0 <= i < |minted| ==> IsRaw(minted[i]))
    && (forall i, j :: 0 <= i < j < |minted| ==> minted[i] != minted[j])
  }

  ghost predicate Admissible(q: Request) {
    match q
    case ConfirmSetup(_, minted) => ProperMint(minted)
    case Regenerate(_, _, minted) => ProperMint(minted)
    case _ => true
  }

  lemma ReplacedRow(c: Config, minted: seq<string>, i: nat, n: string)
    requires Sound(c) && ProperMint(minted) && i < |minted|
    ensures c.verify(n, Replaced(c, minted)[i].hash) <==> n == minted[i]
  {
    GroupedReadsBack(minted[i]);
  }

  lemma MintIsApart(c: Config, minted: seq<string>)
    requires Sound(c) && ProperMint(minted)
    ensures Apart(c, Replaced(c, minted))
  {
    var rows := Replaced(c, minted);
    forall i, j, n | 0 <= i < j < |rows| ensures !(c.verify(n, rows[i].hash) && c.verify(n, rows[j].hash)) {
      ReplacedRow(c, minted, i, n);
      ReplacedRow(c, minted, j, n);
    }
  }

  lemma RequestKeepsApart(c: Config, s: State, q: Request, now: int)
    requires Sound(c) && Apart(c, s.codes) && Admissible(q)
    ensures Apart(c, Committed(c, s, q, now).codes)
  {
    match q
    case ConfirmSetup(_, minted) => MintIsApart(c, minted);
    case Regenerate(_, _, minted) => MintIsApart(c, minted);
    case VerifyLogin(code, _) =>
      var rows, after := s.codes, Committed(c, s, q, now).codes;
      assert |after| == |rows| && forall i :: 0 <= i < |rows| ==> after[i].hash == rows[i].hash;
      forall i, j, n | 0 <= i < j < |after| ensures !(c.verify(n, after[i].hash) && c.verify(n, after[j].hash)) {
        assert !(c.verify(n, rows[i].hash) && c.verify(n, rows[j].hash));
      }
    case _ =>
  }

  lemma {:induction false} CandidateIsFirst(c: Config, rows: seq<CodeRow>, n: string)
    ensures Candidate(c, rows, n).None? ==>
              forall i :: 0 <= i < |rows| ==> rows[i].usedAt.Some? || !c.verify(n, rows[i].hash)
  {
    if rows != [] && !(rows[0].usedAt.None? && c.verify(n, rows[0].hash)) {
      CandidateIsFirst(c, rows[1..], n);
      forall i | 0 < i < |rows| ensures rows[i] == rows[1..][i - 1] { }
    }
  }

  /** With rows apart, the candidate is the one row that matches, if it is unused. */
  lemma CandidateIff(c: Config, rows: seq<CodeRow>, n: string, i: nat)
    requires Apart(c, rows) && i < |rows| && c.verify(n, rows[i].hash)
    ensures Candidate(c, rows, n) == if rows[i].usedAt.None? then Some(i) else None
  {
    CandidateIsFirst(c, rows, n);
  }

  // ---- what each answer means ---------------------------------------------

  ghost predicate TypesTotp(code: string) { exists digits :: TypesDigits(code, digits) }

  /** The typed digits are right for this secret and time. */
  ghost predicate RightDigits(c: Config, secret: string, code: string, now: int) {
    exists digits :: TypesDigits(code, digits) && c.totp(secret, digits, now)
  }

  /** Row `k` is unused and the normalised code verifies against it. */
  ghost predicate Opens(c: Config, rows: seq<CodeRow>, code: string, k: nat) {
    k < |rows| && rows[k].usedAt.None? && c.verify(Normalize(code), rows[k].hash)
  }

  ghost predicate PassesAsTotp(c: Config, s: State, code: string, now: int) {
    && s.enrolled.Some? && s.enrolled.value.verifiedAt.Some?
    && RightDigits(c, s.enrolled.value.secret, code, now)
  }

  ghost predicate PassesAsRecovery(c: Config, s: State, code: string) {
    && s.enrolled.Some? && s.enrolled.value.verifiedAt.Some?
    && !TypesTotp(code) && exists k: nat :: Opens(c, s.codes, code, k)
  }

  /** From `before` to `after`, row `k` and no other was marked used, and nothing else changed. */
  ghost predicate SpendsRow(c: Config, before: State, after: State, code: string, now: int, k: nat) {
    && Opens(c, before.codes, code, k) && (forall j: nat :: j < k ==> !Opens(c, before.codes, code, j))
    && after.enrolled == before.enrolled && |after.codes| == |before.codes|
    && after.codes[k] == CodeRow(before.codes[k].hash, Some(now))
    && forall j :: 0 <= j < |before.codes| && j != k ==> after.codes[j] == before.codes[j]
  }

  /** What a verification does: it passes on a right time-based code or an unused recovery code, says which, spends
      that recovery code and nothing else, and refuses everything else by name. */
  ghost predicate Verified(c: Config, before: State, code: string, now: int, after: State, r: Reply) {
    && (r == Passed(Totp) <==> PassesAsTotp(c, before, code, now))
    && (r == Passed(Recovery) <==> PassesAsRecovery(c, before, code))
    && (r.Passed? || r == Refused(NotConfigured) || r == Refused(InvalidCode))
    && (r == Refused(NotConfigured) <==> before.enrolled.None? || before.enrolled.value.verifiedAt.None?)
    && if r == Passed(Recovery) then exists k: nat :: SpendsRow(c, before, after, code, now, k) else after == before
  }

  lemma RightDigitsIff(c: Config, secret: string, code: string, now: int)
    ensures TypesTotp(code) <==> LooksLikeTotp(code)
    ensures LooksLikeTotp(code) ==>
              (RightDigits(c, secret, code, now) <==> c.totp(secret, Remove(PythonText.Strip(code), ' '), now))
    ensures RightDigits(c, secret, code, now) ==> TypesTotp(code)
  {
    var stripped := Remove(PythonText.Strip(code), ' ');
    TypesDigitsIff(code, stripped);
    forall digits | TypesDigits(code, digits) ensures LooksLikeTotp(code) && digits == stripped {
      TypesDigitsIff(code, digits);
    }
  }

  lemma {:induction false} CandidateSkipsNone(c: Config, rows: seq<CodeRow>, n: string)
    ensures var r := Candidate(c, rows, n);
            r.Some? ==> forall j :: 0 <= j < r.value ==> rows[j].usedAt.Some? || !c.verify(n, rows[j].hash)
  {
    if rows != [] && !(rows[0].usedAt.None? && c.verify(n, rows[0].hash)) {
      CandidateSkipsNone(c, rows[1..], n);
      forall j | 0 < j < |rows| ensures rows[j] == rows[1..][j - 1] { }
    }
  }

  lemma SpendsCandidate(c: Config, s: State, code: string, now: int)
    requires !LooksLikeTotp(code) && s.enrolled.Some? && s.enrolled.value.verifiedAt.Some?
    ensures var (after, r) := VerifyStep(c, s, code, now);
            if exists k: nat :: Opens(c, s.codes, code, k)
            then r == Passed(Recovery) && exists k: nat :: SpendsRow(c, s, after, code, now, k)
            else r == Refused(InvalidCode) && after == s
  {
    CandidateIsFirst(c, s.codes, Normalize(code));
    CandidateSkipsNone(c, s.codes, Normalize(code));
    match Candidate(c, s.codes, Normalize(code))
    case None =>
    case Some(k) =>
      assert Opens(c, s.codes, code, k);
      assert SpendsRow(c, s, VerifyStep(c, s, code, now).0, code, now, k);
  }

  /** A second leg passes as time-based exactly when the method is active and the typed digits are right, and as
      recovery exactly when an unused row verifies; it spends the first such row and changes nothing else. */
  lemma VerifyStepVerifies(c: Config, s: State, code: string, now: int)
    ensures Verified(c, s, code, now, VerifyStep(c, s, code, now).0, VerifyStep(c, s, code, now).1)
  {
    if s.enrolled.Some? && s.enrolled.value.verifiedAt.Some? {
      RightDigitsIff(c, s.enrolled.value.secret, code, now);
      if !LooksLikeTotp(code) { SpendsCandidate(c, s, code, now); }
    }
  }

  /** The three checks before a disabling or a renewal, and which refusal each gives. */
  ghost predicate Guarded(c: Config, s: State, passwordOk: bool, code: string, now: int, r: Reply) {
    var active := s.enrolled.Some? && s.enrolled.value.verifiedAt.Some?;
    && (!r.Refused? <==> passwordOk && active && c.totp(s.enrolled.value.secret, code, now))
    && (r == Refused(InvalidCredentials) <==> !passwordOk)
    && (r == Refused(NotConfigured) <==> passwordOk && !active)
    && (r == Refused(InvalidCode) <==> passwordOk && active && !c.totp(s.enrolled.value.secret, code, now))
  }

  /** The rows are one hash per code shown, of the code as it reads back, all unused. */
  ghost predicate Stored(c: Config, minted: seq<string>, rows: seq<CodeRow>, shown: seq<string>) {
    && |rows| == |shown| == |minted|
    && forall i :: 0 <= i < |minted| ==>
         shown[i] == Grouped(minted[i]) && rows[i] == CodeRow(c.hash(Normalize(Grouped(minted[i]))), None)
  }

  /** A disabling removes the method exactly when password, active method and code are right, and keeps every code. */
  ghost predicate Disabled(c: Config, before: State, passwordOk: bool, code: string, now: int, after: State, r: Reply) {
    && Guarded(c, before, passwordOk, code, now, r)
    && if r.Refused? then after == before else r == Removed && after == State(None, before.codes)
  }

  /** A renewal shows and stores the new codes under the same condition, and keeps the method. */
  ghost predicate Renewed(c: Config, before: State, passwordOk: bool, code: string, minted: seq<string>, now: int,
                          after: State, r: Reply)
  {
    && Guarded(c, before, passwordOk, code, now, r)
    && if r.Refused? then after == before
       else r.Codes? && Stored(c, minted, after.codes, r.shown) && after.enrolled == before.enrolled
  }

  /** A setup is confirmed exactly when one is pending and its code is right. */
  ghost predicate Confirmed(c: Config, before: State, code: string, minted: seq<string>, now: int, after: State,
                            r: Reply)
  {
    var pending := before.enrolled.Some? && before.enrolled.value.verifiedAt.None?;
    && (r.Codes? <==> pending && c.totp(before.enrolled.value.secret, code, now))
    && (r == Refused(SetupPending) <==> !pending)
    && if r.Codes?
       then Stored(c, minted, after.codes, r.shown)
            && after.enrolled == Some(Method(before.enrolled.value.secret, Some(now)))
       else after == before && (r == Refused(SetupPending) || r == Refused(InvalidCode))
  }

  lemma DisableStepDisables(c: Config, s: State, passwordOk: bool, code: string, now: int)
    ensures var (after, r) := DisableStep(c, s, passwordOk, code, now);
            Disabled(c, s, passwordOk, code, now, after, r)
  {
  }

  lemma RegenerateStepRenews(c: Config, s: State, passwordOk: bool, code: string, minted: seq<string>, now: int)
    ensures var (after, r) := RegenerateStep(c, s, passwordOk, code, minted, now);
            Renewed(c, s, passwordOk, code, minted, now, after, r)
  {
  }

  lemma ConfirmStepConfirms(c: Config, s: State, code: string, minted: seq<string>, now: int)
    ensures var (after, r) := ConfirmStep(c, s, code, minted, now);
            Confirmed(c, s, code, minted, now, after, r)
  {
  }
}
