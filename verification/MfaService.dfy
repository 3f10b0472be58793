/** The second-factor service as an object: the user's TOTP row and recovery-code rows, updated in place. */
module MfaService {
  import opened Wrappers
  import opened PythonText
  import opened RecoveryCodes
  import opened SecondFactor

  class MfaService {
    const config: Config
    var enrolled: Option<Method>
    var codes: seq<CodeRow>

    constructor (config: Config)
      ensures this.config == config && Value() == State(None, [])
    {
      this.config := config;
      enrolled, codes := None, [];
    }

    function Value(): State
      reads this
    {
      State(enrolled, codes)
    }

    method Start(secret: string) returns (r: Reply)
      modifies this
      ensures (Value(), r) == StartStep(old(Value()), secret)
      ensures codes == old(codes) && if old(Active(Value())) then r.Refused? && enrolled == old(enrolled)
                                     else r == Started && Awaiting(Value()) && enrolled.value.secret == secret
    {
      if enrolled.Some? && enrolled.value.verifiedAt.Some? { return Refused(AlreadyConfigured); }
      if enrolled.Some? { enrolled := None; }
      enrolled := Some(Method(secret, None));
      return Started;
    }

    /** Drop every recovery code and store the new ones hashed; returns them as shown to the user, once. */
    method ReplaceCodes(minted: seq<string>) returns (shown: seq<string>)
      modifies this
      ensures enrolled == old(enrolled) && codes == Replaced(config, minted) && shown == Shown(minted)
    {
      codes := [];
      shown := [];
      for i := 0 to |minted|
        invariant enrolled == old(enrolled)
        invariant codes == Replaced(config, minted[..i]) && shown == Shown(minted[..i])
      {
        var cleartext := Grouped(minted[i]);
        codes := codes + [CodeRow(config.hash(Normalize(cleartext)), None)];
        shown := shown + [cleartext];
        assert minted[..i + 1] == minted[..i] + [minted[i]];
      }
      assert minted[..|minted|] == minted;
    }

    method Confirm(code: string, minted: seq<string>, now: int) returns (r: Reply)
      modifies this
      ensures (Value(), r) == ConfirmStep(config, old(Value()), code, minted, now)
      ensures Confirmed(config, old(Value()), code, minted, now, Value(), r)
    {
      if enrolled.None? || enrolled.value.verifiedAt.Some? { return Refused(SetupPending); }
      if !config.totp(enrolled.value.secret, code, now) { return Refused(InvalidCode); }
      enrolled := Some(enrolled.value.(verifiedAt := Some(now)));
      var shown := ReplaceCodes(minted);
      return Codes(shown);
    }

    /** Try the unused codes one by one; the first that verifies is spent. */
    method VerifyDuringLogin(code: string, now: int) returns (r: Reply)
      modifies this
      ensures (Value(), r) == VerifyStep(config, old(Value()), code, now)
      ensures Verified(config, old(Value()), code, now, Value(), r)
    {
      VerifyStepVerifies(config, Value(), code, now);
      if enrolled.None? || enrolled.value.verifiedAt.None? { return Refused(NotConfigured); }
      if LooksLikeTotp(code) {
        if config.totp(enrolled.value.secret, Remove(PythonText.Strip(code), ' '), now) { return Passed(Totp); }
        return Refused(InvalidCode);
      }
      var normalized := Normalize(code);
      for i := 0 to |codes|
        invariant Value() == old(Value())
        invariant Candidate(config, codes[..i], normalized).None?
      {
        CandidateSplit(config, codes, i, normalized);
        if codes[i].usedAt.None? && config.verify(normalized, codes[i].hash) {
          codes := codes[i := codes[i].(usedAt := Some(now))];
          return Passed(Recovery);
        }
      }
      assert codes[..|codes|] == codes;
      return Refused(InvalidCode);
    }

    method Drop(passwordOk: bool, code: string, now: int) returns (r: Reply)
      modifies this
      ensures (Value(), r) == DisableStep(config, old(Value()), passwordOk, code, now)
      ensures Disabled(config, old(Value()), passwordOk, code, now, Value(), r)
    {
      var refusal := Gate(config, Value(), passwordOk, code, now);
      if refusal.Some? { return Refused(refusal.value); }
      enrolled := None;
      return Removed;
    }

    method Renew(passwordOk: bool, code: string, minted: seq<string>, now: int) returns (r: Reply)
      modifies this
      ensures (Value(), r) == RegenerateStep(config, old(Value()), passwordOk, code, minted, now)
      ensures Renewed(config, old(Value()), passwordOk, code, minted, now, Value(), r)
    {
      var refusal := Gate(config, Value(), passwordOk, code, now);
      if refusal.Some? { return Refused(refusal.value); }
      var shown := ReplaceCodes(minted);
      return Codes(shown);
    }

    /** A route: run the service, commit what it did unless it, or the login after it, refused. */
    method Handle(q: Request, now: int) returns (r: Reply)
      requires Sound(config) && Apart(config, codes) && Admissible(q)
      modifies this
      ensures Value() == Committed(config, old(Value()), q, now) && r == Answer(config, old(Value()), q, now)
      ensures Apart(config, codes)
    {
      RequestKeepsApart(config, Value(), q, now);
      var enrolled0, codes0 := enrolled, codes;
      match q {
        case StartSetup(secret) => r := Start(secret);
        case ConfirmSetup(code, minted) => r := Confirm(code, minted, now);
        case VerifyLogin(code, loginIssues) =>
          r := VerifyDuringLogin(code, now);
          if r.Passed? && !loginIssues { r := Refused(LoginRefused); }
        case Disable(passwordOk, code) => r := Drop(passwordOk, code, now);
        case Regenerate(passwordOk, code, minted) => r := Renew(passwordOk, code, minted, now);
      }
      if r.Refused? {
        enrolled, codes := enrolled0, codes0;
      }
    }
  }

  /** Looking one row further. */
  lemma {:induction false} CandidateSplit(c: Config, rows: seq<CodeRow>, i: nat, n: string)
    requires i < |rows| && Candidate(c, rows[..i], n).None?
    ensures if rows[i].usedAt.None? && c.verify(n, rows[i].hash) then Candidate(c, rows, n) == Some(i)
            else Candidate(c, rows[..i + 1], n).None?
  {
    if i > 0 {
      assert rows[..i][1..] == rows[1..][..i - 1] && rows[..i + 1][1..] == rows[1..][..i];
      CandidateSplit(c, rows[1..], i - 1, n);
    }
  }
}
