/** Recovery codes over any run: spent at most once per mint, and never lost. */
module SecondFactorRuns {
  import opened Wrappers
  import opened RecoveryCodes
  import opened SecondFactor

  datatype Event = Event(request: Request, now: int, reply: Reply)

  ghost predicate StepHolds(c: Config, states: seq<State>, events: seq<Event>, i: nat)
    requires |states| == |events| + 1 && i < |events|
  {
    && Admissible(events[i].request)
    && states[i + 1] == Committed(c, states[i], events[i].request, events[i].now)
    && events[i].reply == Answer(c, states[i], events[i].request, events[i].now)
  }

  /** A run from a user without a second factor. */
  ghost predicate IsRun(c: Config, states: seq<State>, events: seq<Event>) {
    && Sound(c) && |states| == |events| + 1 && states[0] == State(None, [])
    && forall i :: 0 <= i < |events| ==> StepHolds(c, states, events, i)
  }

  /** A request that draws a new set of codes. */
  predicate Mints(e: Event) { e.reply.Codes? }

  predicate AcceptsCode(e: Event) { e.reply == Passed(Recovery) }

  /** Recovery codes accepted since the last mint. */
  function AcceptedSinceMint(events: seq<Event>): nat {
    if events == [] then 0 else
      var last := events[|events| - 1];
      if Mints(last) then 0 else AcceptedSinceMint(events[..|events| - 1]) + if AcceptsCode(last) then 1 else 0
  }

  predicate EverMinted(events: seq<Event>) {
    events != [] && (Mints(events[|events| - 1]) || EverMinted(events[..|events| - 1]))
  }

  function Unused(rows: seq<CodeRow>): nat {
    if rows == [] then 0 else Unused(rows[..|rows| - 1]) + if rows[|rows| - 1].usedAt.None? then 1 else 0
  }

  lemma {:induction false} RunKeepsApart(c: Config, states: seq<State>, events: seq<Event>, n: nat)
    requires IsRun(c, states, events) && n <= |events|
    ensures Apart(c, states[n].codes)
  {
    if n > 0 {
      RunKeepsApart(c, states, events, n - 1);
      assert StepHolds(c, states, events, n - 1);
      RequestKeepsApart(c, states[n - 1], events[n - 1].request, events[n - 1].now);
    }
  }

  // ---- conservation -------------------------------------------------------

  lemma {:induction false} AllFresh(rows: seq<CodeRow>)
    requires forall i :: 0 <= i < |rows| ==> rows[i].usedAt.None?
    ensures Unused(rows) == |rows|
  {
    if rows != [] { AllFresh(rows[..|rows| - 1]); }
  }

  lemma {:induction false} UsingOne(rows: seq<CodeRow>, i: nat, now: int)
    requires i < |rows| && rows[i].usedAt.None?
    ensures Unused(UseRow(rows, i, now)) + 1 == Unused(rows)
  {
    var n := |rows| - 1;
    if i == n {
      assert UseRow(rows, i, now)[..n] == rows[..n];
    } else {
      assert UseRow(rows, i, now)[..n] == UseRow(rows[..n], i, now);
      UsingOne(rows[..n], i, now);
    }
  }

  lemma AcceptingUsesOne(c: Config, s: State, q: Request, now: int)
    requires Answer(c, s, q, now) == Passed(Recovery)
    ensures var after := Committed(c, s, q, now).codes; |after| == |s.codes| && Unused(after) + 1 == Unused(s.codes)
  {
    UsingOne(s.codes, Candidate(c, s.codes, Normalize(q.code)).value, now);
  }

  lemma MintingRenewsAll(c: Config, s: State, q: Request, now: int)
    requires Admissible(q) && Answer(c, s, q, now).Codes?
    ensures var after := Committed(c, s, q, now).codes; |after| == TOTAL_CODES && Unused(after) == TOTAL_CODES
  {
    AllFresh(Committed(c, s, q, now).codes);
  }

  lemma OthersTouchNoCode(c: Config, s: State, q: Request, now: int)
    requires !Answer(c, s, q, now).Codes? && Answer(c, s, q, now) != Passed(Recovery)
    ensures Committed(c, s, q, now).codes == s.codes
  {
  }

  /** Between mints, unused codes and acceptances always add up to ten; before the first mint there is none of
      either. */
  lemma {:induction false} CodesAreConserved(c: Config, states: seq<State>, events: seq<Event>, n: nat)
    requires IsRun(c, states, events) && n <= |events|
    ensures |states[n].codes| == if EverMinted(events[..n]) then TOTAL_CODES else 0
    ensures Unused(states[n].codes) + AcceptedSinceMint(events[..n]) == |states[n].codes|
  {
    if n > 0 {
      var s, e := states[n - 1], events[n - 1];
      CodesAreConserved(c, states, events, n - 1);
      assert StepHolds(c, states, events, n - 1);
      assert events[..n][..n - 1] == events[..n - 1];
      if Mints(e) { MintingRenewsAll(c, s, e.request, e.now); }
      else if AcceptsCode(e) { AcceptingUsesOne(c, s, e.request, e.now); }
      else { OthersTouchNoCode(c, s, e.request, e.now); }
    }
  }

  // ---- at most once -------------------------------------------------------

  /** Row `k` is the row this string verifies against, and it is used. */
  ghost predicate SpentCode(c: Config, rows: seq<CodeRow>, n: string, k: nat) {
    k < |rows| && c.verify(n, rows[k].hash) && rows[k].usedAt.Some?
  }

  lemma AcceptanceSpends(c: Config, s: State, q: Request, now: int) returns (k: nat)
    requires Answer(c, s, q, now) == Passed(Recovery)
    ensures SpentCode(c, Committed(c, s, q, now).codes, Normalize(q.code), k)
  {
    k := Candidate(c, s.codes, Normalize(q.code)).value;
  }

  lemma SpentStaysSpent(c: Config, s: State, q: Request, now: int, n: string, k: nat)
    requires SpentCode(c, s.codes, n, k) && !Answer(c, s, q, now).Codes?
    ensures SpentCode(c, Committed(c, s, q, now).codes, n, k)
  {
  }

  lemma {:induction false} SpentUntilMint(c: Config, states: seq<State>, events: seq<Event>, i: nat, j: nat, n: string,
                                          k: nat)
    requires IsRun(c, states, events) && i <= j <= |events| && SpentCode(c, states[i].codes, n, k)
    requires forall m :: i <= m < j ==> !Mints(events[m])
    ensures SpentCode(c, states[j].codes, n, k)
  {
    if i < j {
      SpentUntilMint(c, states, events, i, j - 1, n, k);
      assert StepHolds(c, states, events, j - 1);
      SpentStaysSpent(c, states[j - 1], events[j - 1].request, events[j - 1].now, n, k);
    }
  }

  lemma SpentIsRefused(c: Config, s: State, q: Request, now: int, k: nat)
    requires Apart(c, s.codes) && q.VerifyLogin? && SpentCode(c, s.codes, Normalize(q.code), k)
    ensures Answer(c, s, q, now) != Passed(Recovery)
  {
    CandidateIff(c, s.codes, Normalize(q.code), k);
  }

  /** However it is typed, a recovery code is accepted at most once between mints. */
  lemma NoCodeAcceptedTwice(c: Config, states: seq<State>, events: seq<Event>, i: nat, j: nat)
    requires IsRun(c, states, events) && i < j < |events| && AcceptsCode(events[i])
    requires forall m :: i < m < j ==> !Mints(events[m])
    requires events[i].request.VerifyLogin? && events[j].request.VerifyLogin?
    requires Normalize(events[j].request.code) == Normalize(events[i].request.code)
    ensures !AcceptsCode(events[j])
  {
    assert StepHolds(c, states, events, i) && StepHolds(c, states, events, j);
    var k := AcceptanceSpends(c, states[i], events[i].request, events[i].now);
    SpentUntilMint(c, states, events, i + 1, j, Normalize(events[i].request.code), k);
    RunKeepsApart(c, states, events, j);
    SpentIsRefused(c, states[j], events[j].request, events[j].now, k);
  }

  // ---- what is accepted ---------------------------------------------------

  lemma FreshRowsAcceptIff(c: Config, minted: seq<string>, code: string)
    requires Sound(c) && ProperMint(minted)
    ensures Candidate(c, Replaced(c, minted), Normalize(code)).Some?
       <==> exists k :: 0 <= k < |minted| && IsSpelling(code, minted[k])
  {
    var rows, n := Replaced(c, minted), Normalize(code);
    MintIsApart(c, minted);
    if k :| 0 <= k < |minted| && IsSpelling(code, minted[k]) {
      SpellingsNormalize(code, minted[k]);
      ReplacedRow(c, minted, k, n);
      CandidateIff(c, rows, n, k);
    } else if Candidate(c, rows, n).Some? {
      var k := Candidate(c, rows, n).value;
      ReplacedRow(c, minted, k, n);
      NormalizeIff(code, minted[k]);
    }
  }

  lemma MintStoresThese(c: Config, s: State, q: Request, now: int)
    requires (q.ConfirmSetup? || q.Regenerate?) && Answer(c, s, q, now).Codes?
    ensures Active(Committed(c, s, q, now)) && Committed(c, s, q, now).codes == Replaced(c, q.minted)
  {
  }

  lemma RecoveryBranch(c: Config, s: State, code: string, now: int)
    requires Active(s)
    ensures Answer(c, s, VerifyLogin(code, true), now) == Passed(Recovery)
            <==> !LooksLikeTotp(code) && Candidate(c, s.codes, Normalize(code)).Some?
  {
  }

  /** Right after a mint, any spelling of any code shown passes as a recovery code, and nothing else does. */
  lemma MintedCodesPassIff(c: Config, s: State, q: Request, now: int, code: string, later: int)
    requires Sound(c) && Admissible(q) && (q.ConfirmSetup? || q.Regenerate?) && Answer(c, s, q, now).Codes?
    ensures Answer(c, Committed(c, s, q, now), VerifyLogin(code, true), later) == Passed(Recovery)
            <==> exists k :: 0 <= k < |q.minted| && IsSpelling(code, q.minted[k])
  {
    MintStoresThese(c, s, q, now);
    RecoveryBranch(c, Committed(c, s, q, now), code, later);
    FreshRowsAcceptIff(c, q.minted, code);
    if k :| 0 <= k < |q.minted| && IsSpelling(code, q.minted[k]) {
      SpellingsAreNotTotp(code, q.minted[k]);
    }
  }

  /** Any spelling of a code takes the recovery branch, so it is judged by the rows alone. */
  lemma SpellingsAreJudgedByRows(c: Config, s: State, code: string, raw: string, now: int)
    requires Active(s) && IsRaw(raw) && IsSpelling(code, raw)
    ensures Answer(c, s, VerifyLogin(code, true), now)
            == if Candidate(c, s.codes, raw).Some? then Passed(Recovery) else Refused(InvalidCode)
  {
    SpellingsAreNotTotp(code, raw);
    SpellingsNormalize(code, raw);
  }

  /** A login in which some spelling of this code was accepted. */
  predicate AcceptsSpelling(e: Event, raw: string) {
    e.request.VerifyLogin? && AcceptsCode(e) && Normalize(e.request.code) == raw
  }

  /** Some event from `i` on and before `j` accepted a spelling of this code. */
  predicate SpentSince(events: seq<Event>, i: nat, j: nat, raw: string)
    requires j <= |events|
  {
    i < j && (AcceptsSpelling(events[j - 1], raw) || SpentSince(events, i, j - 1, raw))
  }

  /** The row of a minted code: it keeps its hash, and is used exactly when the code was accepted since. */
  ghost predicate RowTells(c: Config, rows: seq<CodeRow>, minted: seq<string>, k: nat, spent: bool)
    requires k < |minted|
  {
    && |rows| == |minted| && rows[k].hash == Replaced(c, minted)[k].hash
    && (rows[k].usedAt.Some? <==> spent)
  }

  lemma RowTellsOneMore(c: Config, s: State, q: Request, now: int, minted: seq<string>, k: nat, spent: bool)
    requires Sound(c) && ProperMint(minted) && k < |minted| && Apart(c, s.codes)
    requires RowTells(c, s.codes, minted, k, spent) && !Answer(c, s, q, now).Codes?
    ensures RowTells(c, Committed(c, s, q, now).codes, minted, k,
                     spent || AcceptsSpelling(Event(q, now, Answer(c, s, q, now)), minted[k]))
  {
    if Answer(c, s, q, now) == Passed(Recovery) {
      var n := Normalize(q.code);
      ReplacedRow(c, minted, k, n);
      if n == minted[k] { CandidateIff(c, s.codes, n, k); }
    } else {
      OthersTouchNoCode(c, s, q, now);
    }
  }

  lemma {:induction false} RowTellsUntilMint(c: Config, states: seq<State>, events: seq<Event>, i: nat, j: nat,
                                             minted: seq<string>, k: nat)
    requires IsRun(c, states, events) && i < j <= |events| && ProperMint(minted) && k < |minted|
    requires states[i + 1].codes == Replaced(c, minted)
    requires forall m :: i < m < j ==> !Mints(events[m])
    ensures RowTells(c, states[j].codes, minted, k, SpentSince(events, i + 1, j, minted[k]))
  {
    if i + 1 < j {
      RowTellsUntilMint(c, states, events, i, j - 1, minted, k);
      assert StepHolds(c, states, events, j - 1);
      RunKeepsApart(c, states, events, j - 1);
      var e := events[j - 1];
      RowTellsOneMore(c, states[j - 1], e.request, e.now, minted, k, SpentSince(events, i + 1, j - 1, minted[k]));
    }
  }

  /** Until the next mint, while the method is active, any spelling of a minted code is accepted
      exactly when no spelling of it was accepted before. */
  lemma CodePassesUntilSpent(c: Config, states: seq<State>, events: seq<Event>, i: nat, j: nat, minted: seq<string>,
                             k: nat,
                             code: string, now: int)
    requires IsRun(c, states, events) && i < j <= |events| && ProperMint(minted) && k < |minted|
    requires states[i + 1].codes == Replaced(c, minted) && Active(states[j])
    requires forall m :: i < m < j ==> !Mints(events[m])
    requires IsSpelling(code, minted[k])
    ensures Answer(c, states[j], VerifyLogin(code, true), now)
            == if SpentSince(events, i + 1, j, minted[k]) then Refused(InvalidCode) else Passed(Recovery)
  {
    RowTellsUntilMint(c, states, events, i, j, minted, k);
    RunKeepsApart(c, states, events, j);
    ReplacedRow(c, minted, k, minted[k]);
    CandidateIff(c, states[j].codes, minted[k], k);
    SpellingsAreJudgedByRows(c, states[j], code, minted[k], now);
  }

  // ---- disabling ----------------------------------------------------------

  lemma ActiveStep(c: Config, s: State, q: Request, now: int)
    requires Active(Committed(c, s, q, now)) && !Answer(c, s, q, now).Codes?
    ensures Active(s)
  {
  }

  /** Only a confirmation makes a method active, and it draws codes. */
  lemma {:induction false} ActiveMeansMinted(c: Config, states: seq<State>, events: seq<Event>, n: nat)
    requires IsRun(c, states, events) && n <= |events| && Active(states[n])
    ensures EverMinted(events[..n])
  {
    if n > 0 {
      var s, e := states[n - 1], events[n - 1];
      assert StepHolds(c, states, events, n - 1);
      assert events[..n][..n - 1] == events[..n - 1];
      if !Mints(e) {
        ActiveStep(c, s, e.request, e.now);
        ActiveMeansMinted(c, states, events, n - 1);
      }
    }
  }

  lemma RemovedStep(c: Config, s: State, q: Request, now: int)
    requires Answer(c, s, q, now) == Removed
    ensures Active(s) && !Active(Committed(c, s, q, now)) && Committed(c, s, q, now).codes == s.codes
  {
  }

  /** Over any run, every disabling leaves all ten recovery codes in their table, spent and unspent,
      though its description says they go too. */
  lemma DisableKeepsCodes(c: Config, states: seq<State>, events: seq<Event>, i: nat)
    requires IsRun(c, states, events) && i < |events| && events[i].reply == Removed
    ensures states[i + 1].enrolled.None? && |states[i + 1].codes| == TOTAL_CODES
    ensures Unused(states[i + 1].codes) == TOTAL_CODES - AcceptedSinceMint(events[..i])
  {
    assert StepHolds(c, states, events, i);
    RemovedStep(c, states[i], events[i].request, events[i].now);
    ActiveMeansMinted(c, states, events, i);
    CodesAreConserved(c, states, events, i);
  }

  /** And such runs exist: enrol, confirm, disable. */
  lemma DisableIsReached(c: Config, secret: string, code: string, now: int, minted: seq<string>)
    returns (states: seq<State>, events: seq<Event>)
    requires Sound(c) && ProperMint(minted) && c.totp(secret, code, now)
    ensures IsRun(c, states, events) && |events| == 3 && events[2].reply == Removed
  {
    var requests := [StartSetup(secret), ConfirmSetup(code, minted), Disable(true, code)];
    var s0 := State(None, []);
    var s1 := Committed(c, s0, requests[0], now);
    var s2 := Committed(c, s1, requests[1], now);
    states := [s0, s1, s2, Committed(c, s2, requests[2], now)];
    events := seq(3, i requires 0 <= i < 3 => Event(requests[i], now, Answer(c, states[i], requests[i], now)));
    assert StepHolds(c, states, events, 0) && StepHolds(c, states, events, 1) && StepHolds(c, states, events, 2);
  }

  /** No code is accepted without an active method, and a method becomes active only with a fresh set of codes:
      so over any run, what was left behind by a disabled method is never accepted. */
  lemma {:induction false} NoLeftoverCodeIsAccepted(c: Config, states: seq<State>, events: seq<Event>, i: nat, j: nat)
    requires IsRun(c, states, events) && i < j < |events| && events[i].reply == Removed
    requires forall m :: i < m < j ==> !Mints(events[m])
    ensures !Active(states[j]) && !events[j].reply.Passed?
  {
    StaysInactive(c, states, events, i, j);
    assert StepHolds(c, states, events, j);
  }

  lemma {:induction false} StaysInactive(c: Config, states: seq<State>, events: seq<Event>, i: nat, j: nat)
    requires IsRun(c, states, events) && i < j <= |events| && events[i].reply == Removed
    requires forall m :: i < m < j ==> !Mints(events[m])
    ensures !Active(states[j])
  {
    assert StepHolds(c, states, events, j - 1);
    if i < j - 1 { StaysInactive(c, states, events, i, j - 1); }
  }
}
