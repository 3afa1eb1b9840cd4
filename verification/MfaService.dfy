/** The MFA lifecycle: TOTP enrolment and verification, passkeys, and the derived
    `users.mfa_enabled` flag. Requests are serial, as the service's own caveat says. */
module MfaService {
  import opened Options
  import RecoveryCodes

  type UserId = nat
  type Secret = nat
  type CredentialId = nat
  type Step = int  // a 30-second time step

  /** `readable` is whether the stored ciphertext can be decrypted. */
  datatype TotpRow = TotpRow(secret: Secret, readable: bool, confirmed: bool, lastUsedStep: Option<Step>)

  datatype State = State(
    totp: map<UserId, TotpRow>,
    passkeys: map<CredentialId, UserId>,
    enabled: set<UserId>,
    recovery: seq<RecoveryCodes.CodeRow>)

  /** What pyotp computes: the one-time password of a secret at a counter, and the Unicode normal
      form in which it compares texts. */
  datatype Otp = Otp(password: (Secret, int) -> string, normal: string -> string)

  /** The code spells the password of `counter`. */
  predicate Spells(otp: Otp, secret: Secret, code: string, counter: int) {
    otp.normal(code) == otp.normal(otp.password(secret, counter))
  }

  /** pyotp's `verify(code, valid_window=1)` at its own reading of the clock. */
  predicate OtpAccepts(otp: Otp, secret: Secret, code: string, at: Step) {
    Spells(otp, secret, code, at - 1) || Spells(otp, secret, code, at) || Spells(otp, secret, code, at + 1)
  }

  datatype VerifyResult = Success | Invalid | Replay | MissingSecret | DecryptionFailed

  function Confirmed(s: State, u: UserId): Option<TotpRow> {
    if u in s.totp && s.totp[u].confirmed then Some(s.totp[u]) else None
  }

  function PasskeysOf(s: State, u: UserId): set<CredentialId> {
    set c | c in s.passkeys && s.passkeys[c] == u
  }

  predicate HasFactor(s: State, u: UserId) {
    Confirmed(s, u).Some? || |PasskeysOf(s, u)| > 0
  }

  function Recompute(s: State, u: UserId): State {
    s.(enabled := if HasFactor(s, u) then s.enabled + {u} else s.enabled - {u})
  }

  function Begin(s: State, u: UserId, secret: Secret, readable: bool): (State, bool) {
    if u in s.totp && s.totp[u].confirmed then (s, false)
    else (s.(totp := s.totp[u := TotpRow(secret, readable, false, None)]), true)
  }

  /** `at` is pyotp's reading of the clock, `step` the service's own, taken just after. */
  function Confirm(otp: Otp, s: State, u: UserId, code: string, at: Step, step: Step): (State, bool) {
    if u !in s.totp || s.totp[u].confirmed || !s.totp[u].readable || !OtpAccepts(otp, s.totp[u].secret, code, at)
    then (s, false)
    else (s.(totp := s.totp[u := s.totp[u].(confirmed := true, lastUsedStep := Some(step))],
             enabled := s.enabled + {u}), true)
  }

  /** Here the service reads the clock first (`step`), pyotp after it (`at`). */
  function Verify(otp: Otp, s: State, u: UserId, code: string, step: Step, at: Step): (State, VerifyResult) {
    if Confirmed(s, u) == None then (s, if u in s.enabled then MissingSecret else Invalid) else
    var row := s.totp[u];
    if !row.readable then (s, DecryptionFailed)
    else if row.lastUsedStep.Some? && step <= row.lastUsedStep.value then (s, Replay)
    else if !OtpAccepts(otp, row.secret, code, at) then (s, Invalid)
    else (s.(totp := s.totp[u := row.(lastUsedStep := Some(step))]), Success)
  }

  function Disable(s: State, u: UserId): State {
    Recompute(s.(totp := s.totp - {u}, recovery := RecoveryCodes.Without(s.recovery, u)), u)
  }

  /** A credential id already stored violates the primary key: nothing is saved. */
  function Register(s: State, u: UserId, c: CredentialId): (State, bool) {
    if c in s.passkeys then (s, false) else (Recompute(s.(passkeys := s.passkeys[c := u]), u), true)
  }

  function DeletePasskey(s: State, u: UserId, c: CredentialId): (State, bool) {
    if c !in s.passkeys || s.passkeys[c] != u then (s, false)
    else (Recompute(s.(passkeys := s.passkeys - {c}), u), true)
  }

  class Mfa {
    const otp: Otp
    var totp: map<UserId, TotpRow>
    var passkeys: map<CredentialId, UserId>
    var enabled: set<UserId>
    var recovery: seq<RecoveryCodes.CodeRow>

    ghost function Abstract(): State
      reads this
    {
      State(totp, passkeys, enabled, recovery)
    }

    constructor (otp: Otp)
      ensures this.otp == otp && Abstract() == State(map[], map[], {}, [])
    {
      this.otp, totp, passkeys, enabled, recovery := otp, map[], map[], {}, [];
    }

    /** Writes the flag only when it differs from what the factors say. */
    method RecomputeMfaEnabled(u: UserId)
      modifies this`enabled
      ensures Abstract() == Recompute(old(Abstract()), u)
    {
      var hasTotp := u in totp && totp[u].confirmed;
      var count := |set c | c in passkeys && passkeys[c] == u|;
      var desired := hasTotp || count > 0;
      if (u in enabled) != desired {
        enabled := if desired then enabled + {u} else enabled - {u};
      }
      assert (set c | c in passkeys && passkeys[c] == u) == PasskeysOf(old(Abstract()), u);
      assert enabled == if desired then old(enabled) + {u} else old(enabled) - {u};
    }

    method BeginEnrollment(u: UserId, secret: Secret, readable: bool) returns (ok: bool)
      modifies this
      ensures (Abstract(), ok) == Begin(old(Abstract()), u, secret, readable)
    {
      if u in totp {
        if totp[u].confirmed {
          return false;
        }
        totp := totp - {u};
      }
      totp := totp[u := TotpRow(secret, readable, false, None)];
      assert totp == old(totp)[u := TotpRow(secret, readable, false, None)];
      ok := true;
    }

    method ConfirmEnrollment(u: UserId, code: string, at: Step, step: Step) returns (ok: bool)
      modifies this
      ensures (Abstract(), ok) == Confirm(otp, old(Abstract()), u, code, at, step)
    {
      if u !in totp || totp[u].confirmed {
        return false;
      }
      var row := totp[u];
      if !row.readable || !OtpAccepts(otp, row.secret, code, at) {
        return false;
      }
      row := row.(confirmed := true, lastUsedStep := Some(step));
      totp := totp[u := row];
      enabled := enabled + {u};
      ok := true;
    }

    method VerifyCode(u: UserId, code: string, step: Step, at: Step) returns (result: VerifyResult)
      modifies this
      ensures (Abstract(), result) == Verify(otp, old(Abstract()), u, code, step, at)
    {
      if u !in totp || !totp[u].confirmed {
        return if u in enabled then MissingSecret else Invalid;
      }
      var row := totp[u];
      if !row.readable {
        return DecryptionFailed;
      }
      if row.lastUsedStep.Some? && step <= row.lastUsedStep.value {
        return Replay;
      }
      if !OtpAccepts(otp, row.secret, code, at) {
        return Invalid;
      }
      totp := totp[u := row.(lastUsedStep := Some(step))];
      result := Success;
    }

    method DisableTotp(u: UserId)
      modifies this
      ensures Abstract() == Disable(old(Abstract()), u)
    {
      totp := totp - {u};
      recovery := RecoveryCodes.Without(recovery, u);
      RecomputeMfaEnabled(u);
    }

    method FinishRegistration(u: UserId, c: CredentialId) returns (ok: bool)
      modifies this
      ensures (Abstract(), ok) == Register(old(Abstract()), u, c)
    {
      if c in passkeys {
        return false;
      }
      passkeys := passkeys[c := u];
      RecomputeMfaEnabled(u);
      ok := true;
    }

    method Delete(u: UserId, c: CredentialId) returns (ok: bool)
      modifies this
      ensures (Abstract(), ok) == DeletePasskey(old(Abstract()), u, c)
    {
      if c !in passkeys || passkeys[c] != u {
        return false;
      }
      passkeys := passkeys - {c};
      RecomputeMfaEnabled(u);
      ok := true;
    }
  }

  // ---- runs ----

  datatype Event =
    | BeginEvent(u: UserId, secret: Secret, readable: bool)
    | ConfirmEvent(u: UserId, code: string, step: Step, at: Step)
    | VerifyEvent(u: UserId, code: string, step: Step, at: Step)
    | DisableEvent(u: UserId)
    | RegisterEvent(u: UserId, credential: CredentialId)
    | DeleteEvent(u: UserId, credential: CredentialId)
    | GenerateEvent(u: UserId, draws: RecoveryCodes.Draws)
    | UseEvent(u: UserId, code: string)
    | LoseKeyEvent(u: UserId)  // the stored secret can no longer be decrypted

  /** Every request a run has made, the latest outermost. */
  datatype Run = Start | Then(earlier: Run, last: Event)

  function Next(otp: Otp, s: State, e: Event): State {
    match e
    case BeginEvent(u, secret, readable) => Begin(s, u, secret, readable).0
    case ConfirmEvent(u, code, step, at) => Confirm(otp, s, u, code, at, step).0
    case VerifyEvent(u, code, step, at) => Verify(otp, s, u, code, step, at).0
    case DisableEvent(u) => Disable(s, u)
    case RegisterEvent(u, c) => Register(s, u, c).0
    case DeleteEvent(u, c) => DeletePasskey(s, u, c).0
    case GenerateEvent(u, draws) => s.(recovery := RecoveryCodes.Generated(s.recovery, u, draws))
    case LoseKeyEvent(u) => if u in s.totp then s.(totp := s.totp[u := s.totp[u].(readable := false)]) else s
    case UseEvent(u, code) => s.(recovery := RecoveryCodes.Consume(s.recovery, u, code).0)
  }

  function After(otp: Otp, r: Run): State {
    match r
    case Start => State(map[], map[], {}, [])
    case Then(earlier, e) => Next(otp, After(otp, earlier), e)
  }

  lemma FlagFollowsFactors(otp: Otp, s: State, e: Event, v: UserId)
    requires v in s.enabled <==> HasFactor(s, v)
    ensures v in Next(otp, s, e).enabled <==> HasFactor(Next(otp, s, e), v)
  {
    var s' := Next(otp, s, e);
    if e.u != v {
      assert PasskeysOf(s', v) == PasskeysOf(s, v);
    } else {
      assert PasskeysOf(s'.(enabled := s.enabled), v) == PasskeysOf(s', v);
      if !e.RegisterEvent? && !e.DeleteEvent? {
        assert PasskeysOf(s', v) == PasskeysOf(s, v);
      }
    }
  }

  /** Over every run the flag is on exactly when a confirmed TOTP row or a passkey exists. */
  lemma {:induction false} FlagIsDerived(otp: Otp, r: Run, u: UserId)
    ensures u in After(otp, r).enabled
            <==> Confirmed(After(otp, r), u).Some?
                 || exists c :: c in After(otp, r).passkeys && After(otp, r).passkeys[c] == u
  {
    FlagIsHasFactor(otp, r, u);
    var s := After(otp, r);
    if c :| c in s.passkeys && s.passkeys[c] == u {
      assert c in PasskeysOf(s, u);
    } else {
      assert PasskeysOf(s, u) == {};
    }
  }

  lemma {:induction false} FlagIsHasFactor(otp: Otp, r: Run, u: UserId)
    ensures u in After(otp, r).enabled <==> HasFactor(After(otp, r), u)
  {
    match r
    case Start => assert PasskeysOf(After(otp, r), u) == {};
    case Then(earlier, e) =>
      FlagIsHasFactor(otp, earlier, u);
      FlagFollowsFactors(otp, After(otp, earlier), e, u);
  }

  /** Hence `verify` reports a missing secret as inconsistent exactly for a passkey-only user. */
  lemma MissingSecretMeansPasskeyOnly(otp: Otp, r: Run, u: UserId, code: string, step: Step, at: Step)
    ensures Verify(otp, After(otp, r), u, code, step, at).1 == MissingSecret
            <==> Confirmed(After(otp, r), u) == None
                 && exists c :: c in After(otp, r).passkeys && After(otp, r).passkeys[c] == u
  {
    FlagIsDerived(otp, r, u);
  }

  // ---- one enrolment: from a successful begin to the next begin or disable ----

  /** The steps at which the current enrolment's secret was confirmed or verified, in order. */
  function SuccessSteps(otp: Otp, r: Run, u: UserId): seq<Step> {
    if r.Start? then []
    else
      var s, before := After(otp, r.earlier), SuccessSteps(otp, r.earlier, u);
      match r.last
      case BeginEvent(v, secret, readable) => if v == u && Begin(s, u, secret, readable).1 then [] else before
      case DisableEvent(v) => if v == u then [] else before
      case ConfirmEvent(v, code, step, at) =>
        if v == u && Confirm(otp, s, u, code, at, step).1 then before + [step] else before
      case VerifyEvent(v, code, step, at) =>
        if v == u && Verify(otp, s, u, code, step, at).1 == Success then before + [step] else before
      case _ => before
  }

  predicate Increasing(s: seq<Step>) {
    forall i, j :: 0 <= i < j < |s| ==> s[i] < s[j]
  }

  /** The successes of the current enrolment are in order, and its counter is the last of them. */
  predicate CounterFollows(otp: Otp, r: Run, u: UserId) {
    var steps, confirmed := SuccessSteps(otp, r, u), Confirmed(After(otp, r), u);
    Increasing(steps) &&
    if confirmed == None then steps == []
    else steps != [] && confirmed.value.lastUsedStep == Some(steps[|steps| - 1])
  }

  lemma OthersKeepCounter(otp: Otp, r: Run, u: UserId)
    requires r.Then? && r.last.u != u && CounterFollows(otp, r.earlier, u)
    ensures CounterFollows(otp, r, u)
  {
    assert Confirmed(After(otp, r), u) == Confirmed(After(otp, r.earlier), u);
    assert SuccessSteps(otp, r, u) == SuccessSteps(otp, r.earlier, u);
  }

  lemma OwnKeepsCounter(otp: Otp, r: Run, u: UserId)
    requires r.Then? && r.last.u == u && CounterFollows(otp, r.earlier, u)
    ensures CounterFollows(otp, r, u)
  {
    hide OtpAccepts, HasFactor;
    match r.last
    case ConfirmEvent(_, _, _, _) =>
    case VerifyEvent(_, _, _, _) =>
    case _ =>
  }

  /** Whatever the clock does, the steps of one enrolment's successes strictly increase, so no
      step has two; the stored counter is the latest of them. */
  lemma {:induction false} StepsIncrease(otp: Otp, r: Run, u: UserId)
    ensures Increasing(SuccessSteps(otp, r, u))
    ensures var s := After(otp, r);
            match Confirmed(s, u)
            case None => SuccessSteps(otp, r, u) == []
            case Some(row) =>
              var steps := SuccessSteps(otp, r, u);
              steps != [] && row.lastUsedStep == Some(steps[|steps| - 1])
    ensures CounterFollows(otp, r, u)
  {
    if r.Start? {
    } else {
      StepsIncrease(otp, r.earlier, u);
      if r.last.u == u {
        OwnKeepsCounter(otp, r, u);
      } else {
        OthersKeepCounter(otp, r, u);
      }
    }
  }

  // ---- how often one password is accepted ----

  /** The code spells the password of `counter`, and the clock is where that password fits. */
  predicate Fits(otp: Otp, secret: Secret, code: string, counter: int, at: Step) {
    Spells(otp, secret, code, counter) && counter - 1 <= at <= counter + 1
  }

  /** How often the current enrolment accepted the password of `counter` where it fits. */
  function Acceptances(otp: Otp, r: Run, u: UserId, counter: int): nat {
    if r.Start? then 0
    else
      var s, before := After(otp, r.earlier), Acceptances(otp, r.earlier, u, counter);
      match r.last
      case BeginEvent(v, secret, readable) => if v == u && Begin(s, u, secret, readable).1 then 0 else before
      case DisableEvent(v) => if v == u then 0 else before
      case ConfirmEvent(v, c, step, at) =>
        before + if v == u && Confirm(otp, s, u, c, at, step).1 && Fits(otp, s.totp[u].secret, c, counter, at)
                 then 1 else 0
      case VerifyEvent(v, c, step, at) =>
        before + if v == u && Verify(otp, s, u, c, step, at).1 == Success && Fits(otp, s.totp[u].secret, c, counter, at)
                 then 1 else 0
      case _ => before
  }

  /** The two clock readings of one request, in the order it takes them, are at most `skew`
      steps apart. */
  predicate Skewed(r: Run, skew: nat) {
    r.Then? ==>
      Skewed(r.earlier, skew)
      && (r.last.ConfirmEvent? ==> r.last.at <= r.last.step <= r.last.at + skew)
      && (r.last.VerifyEvent? ==> r.last.step <= r.last.at <= r.last.step + skew)
  }

  lemma {:induction false} AcceptancesBounded(otp: Otp, r: Run, u: UserId, counter: int, skew: nat)
    requires Skewed(r, skew)
    ensures Acceptances(otp, r, u, counter) <= 3 + skew
    ensures Acceptances(otp, r, u, counter) > 0 ==>
              Confirmed(After(otp, r), u).Some? && After(otp, r).totp[u].lastUsedStep.Some?
              && Acceptances(otp, r, u, counter) <= After(otp, r).totp[u].lastUsedStep.value - (counter - 1 - skew) + 1
  {
    if r.Start? {
    } else {
      AcceptancesBounded(otp, r.earlier, u, counter, skew);
    }
  }

  /** The password of a counter is accepted at most three times in an enrolment when both clock
      readings of a request agree, once more per step they may differ. */
  lemma AtMostThreeAcceptances(otp: Otp, r: Run, u: UserId, counter: int, skew: nat)
    requires Skewed(r, skew)
    ensures Acceptances(otp, r, u, counter) <= 3 + skew
  {
    AcceptancesBounded(otp, r, u, counter, skew);
  }

  function ThreeTimes(u: UserId, secret: Secret, code: string, c: int): Run {
    Then(Then(Then(Then(Start, BeginEvent(u, secret, true)),
                   ConfirmEvent(u, code, c - 1, c - 1)),
              VerifyEvent(u, code, c, c)),
         VerifyEvent(u, code, c + 1, c + 1))
  }

  /** Three is reached: the step counter does not make a code single-use. */
  lemma ThreeAcceptancesHappen(otp: Otp, u: UserId, secret: Secret, c: int)
    ensures var r := ThreeTimes(u, secret, otp.password(secret, c), c);
            Skewed(r, 0) && Acceptances(otp, r, u, c) == 3
  {
    var code := otp.password(secret, c);
    var r := ThreeTimes(u, secret, code, c);
    var r1, r2, r3 := r.earlier.earlier.earlier, r.earlier.earlier, r.earlier;
    assert Skewed(r1, 0) && Skewed(r2, 0) && Skewed(r3, 0);
    assert After(otp, r1).totp[u] == TotpRow(secret, true, false, None);
    assert OtpAccepts(otp, secret, code, c - 1);
    assert After(otp, r2).totp[u] == TotpRow(secret, true, true, Some(c - 1)) && Acceptances(otp, r2, u, c) == 1;
    assert After(otp, r3).totp[u] == TotpRow(secret, true, true, Some(c)) && Acceptances(otp, r3, u, c) == 2;
  }

  // ---- exactly when a password is single-use ----

  /** Would `verify` take this spelling of the password of `counter` at these two readings? */
  predicate Takes(otp: Otp, s: State, u: UserId, code: string, counter: int, step: Step, at: Step) {
    u in s.totp && step <= at && Fits(otp, s.totp[u].secret, code, counter, at)
    && Verify(otp, s, u, code, step, at).1 == Success
  }

  /** Does `r` extend `first` without disabling the user's TOTP? */
  predicate KeepsEnrolment(r: Run, first: Run, u: UserId) {
    r == first || (r.Then? && r.last != DisableEvent(u) && KeepsEnrolment(r.earlier, first, u))
  }

  lemma {:induction false} StoredStepGrows(otp: Otp, first: Run, r: Run, u: UserId)
    requires KeepsEnrolment(r, first, u) && Confirmed(After(otp, first), u).Some?
    requires After(otp, first).totp[u].lastUsedStep.Some?
    ensures Confirmed(After(otp, r), u).Some? && After(otp, r).totp[u].lastUsedStep.Some?
    ensures After(otp, r).totp[u].lastUsedStep.value >= After(otp, first).totp[u].lastUsedStep.value
  {
    if r == first {
    } else {
      StoredStepGrows(otp, first, r.earlier, u);
    }
  }

  /** Whether some continuation of the run, the enrolment kept, takes some spelling of the password
      of `counter`. */
  ghost predicate TakenLater(otp: Otp, r: Run, u: UserId, counter: int) {
    exists r', code, step, at ::
      KeepsEnrolment(r', r, u) && Takes(otp, After(otp, r'), u, code, counter, step, at)
  }

  /** A confirmed enrolment will take the password of a counter, now or after any continuation,
      exactly while the stored step is below the last step at which that password fits. */
  lemma TakenLaterIff(otp: Otp, r: Run, u: UserId, counter: int)
    requires Confirmed(After(otp, r), u).Some? && After(otp, r).totp[u].readable
    ensures After(otp, r).totp[u].lastUsedStep.Some?
    ensures TakenLater(otp, r, u, counter) <==> After(otp, r).totp[u].lastUsedStep.value < counter + 1
  {
    StepsIncrease(otp, r, u);
    if r', code, step, at :| KeepsEnrolment(r', r, u) && Takes(otp, After(otp, r'), u, code, counter, step, at) {
      StoredStepGrows(otp, r, r', u);
    }
    if After(otp, r).totp[u].lastUsedStep.value < counter + 1 {
      var code := otp.password(After(otp, r).totp[u].secret, counter);
      assert KeepsEnrolment(r, r, u);
      assert Takes(otp, After(otp, r), u, code, counter, counter + 1, counter + 1);
    }
  }

  /** So an accepted code is single-use exactly when it was accepted at the last step it fits. */
  lemma SingleUseIff(otp: Otp, r: Run, u: UserId, code: string, counter: int, step: Step, at: Step)
    requires Takes(otp, After(otp, r), u, code, counter, step, at)
    ensures TakenLater(otp, Then(r, VerifyEvent(u, code, step, at)), u, counter) <==> step <= counter
  {
    TakenLaterIff(otp, Then(r, VerifyEvent(u, code, step, at)), u, counter);
  }

  // ---- recovery codes ----

  predicate WithoutGeneration(r: Run, first: Run, u: UserId) {
    r == first
    || (r.Then? && !(r.last.GenerateEvent? && r.last.u == u) && WithoutGeneration(r.earlier, first, u))
  }

  lemma {:induction false} NoRowsUntilGeneration(otp: Otp, first: Run, r: Run, u: UserId)
    requires first.Then? && first.last == DisableEvent(u) && WithoutGeneration(r, first, u)
    ensures forall x :: x in After(otp, r).recovery ==> x.user != u
  {
    if r == first {
      RecoveryCodes.WithoutIs(After(otp, r.earlier).recovery, u);
    } else {
      NoRowsUntilGeneration(otp, first, r.earlier, u);
      RecoveryCodes.WithoutIs(After(otp, r.earlier).recovery, r.last.u);
      forall x | x in After(otp, r).recovery ensures x.user != u {
        if r.last.UseEvent? {
          RecoveryCodes.ConsumeKeepsUsers(After(otp, r.earlier).recovery, r.last.u, r.last.code, x);
        }
        if r.last.GenerateEvent? {
          RecoveryCodes.OwnRows(r.last.u, RecoveryCodes.Kept(r.last.draws, RecoveryCodes.MAX_ATTEMPTS));
        }
      }
    }
  }

  /** Disabling TOTP voids every recovery code of the user until a new set is generated. */
  lemma DisableVoidsRecoveryCodes(otp: Otp, first: Run, r: Run, u: UserId, code: string)
    requires first.Then? && first.last == DisableEvent(u) && WithoutGeneration(r, first, u)
    ensures !RecoveryCodes.Consume(After(otp, r).recovery, u, code).1
  {
    NoRowsUntilGeneration(otp, first, r, u);
  }
}
