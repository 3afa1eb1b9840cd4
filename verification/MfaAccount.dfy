/** What the requests of an MFA run add up to, for one user or one passkey at a time, told from the
    requests alone, and what each request answers. */
module MfaAccount {
  import opened Options
  import opened MfaService
  import RecoveryCodes

  /** The code spells the password of some counter within one step of the clock. */
  ghost predicate Accepts(otp: Otp, secret: Secret, code: string, at: Step) {
    exists c :: at - 1 <= c <= at + 1 && Spells(otp, secret, code, c)
  }

  lemma AcceptsIff(otp: Otp, secret: Secret, code: string, at: Step)
    ensures OtpAccepts(otp, secret, code, at) <==> Accepts(otp, secret, code, at)
  {
    assert OtpAccepts(otp, secret, code, at) ==>
             Spells(otp, secret, code, at - 1) || Spells(otp, secret, code, at) || Spells(otp, secret, code, at + 1);
  }

  // ---- the account ----

  datatype Enrolment =
    | NoEnrolment
    | Pending(secret: Secret, readable: bool)
    | Active(secret: Secret, readable: bool, lastStep: Step)

  /** A begin replaces what is pending, the right code activates it, the right code at a later step
      moves it on, a disable ends it; a lost key makes it unreadable. */
  ghost function EnrolmentOf(otp: Otp, r: Run, u: UserId): Enrolment {
    if r.Start? then NoEnrolment
    else
      var before := EnrolmentOf(otp, r.earlier, u);
      if r.last.u != u then before
      else match r.last
        case BeginEvent(_, secret, readable) => if before.Active? then before else Pending(secret, readable)
        case ConfirmEvent(_, code, step, at) =>
          if before.Pending? && before.readable && Accepts(otp, before.secret, code, at)
          then Active(before.secret, true, step) else before
        case VerifyEvent(_, code, step, at) =>
          if before.Active? && before.readable && before.lastStep < step && Accepts(otp, before.secret, code, at)
          then Active(before.secret, true, step) else before
        case DisableEvent(_) => NoEnrolment
        case LoseKeyEvent(_) => if before.NoEnrolment? then before else before.(readable := false)
        case _ => before
  }

  /** A passkey belongs to the first to register it, until that user deletes it. */
  function PasskeyOwner(r: Run, c: CredentialId): Option<UserId> {
    if r.Start? then None
    else
      var before := PasskeyOwner(r.earlier, c);
      match r.last
      case RegisterEvent(u, credential) => if credential == c && before == None then Some(u) else before
      case DeleteEvent(u, credential) => if credential == c && before == Some(u) then None else before
      case _ => before
  }

  function RowOf(e: Enrolment): Option<TotpRow> {
    match e
    case NoEnrolment => None
    case Pending(secret, readable) => Some(TotpRow(secret, readable, false, None))
    case Active(secret, readable, step) => Some(TotpRow(secret, readable, true, Some(step)))
  }

  // ---- the tables agree with it ----

  /** Over every run, each user's stored row is exactly what the requests add up to. */
  lemma {:induction false} RowIsAccount(otp: Otp, r: Run, u: UserId)
    ensures var totp := After(otp, r).totp;
            (if u in totp then Some(totp[u]) else None) == RowOf(EnrolmentOf(otp, r, u))
  {
    if r.Start? {
    } else {
      RowIsAccount(otp, r.earlier, u);
      var before := EnrolmentOf(otp, r.earlier, u);
      match r.last
      case ConfirmEvent(_, code, _, at) =>
        if before.Pending? {
          AcceptsIff(otp, before.secret, code, at);
        }
      case VerifyEvent(_, code, _, at) =>
        if before.Active? {
          AcceptsIff(otp, before.secret, code, at);
        }
      case _ =>
    }
  }

  /** And so is each passkey. */
  lemma {:induction false} PasskeysAreAccount(otp: Otp, r: Run, c: CredentialId)
    ensures var passkeys := After(otp, r).passkeys;
            (if c in passkeys then Some(passkeys[c]) else None) == PasskeyOwner(r, c)
  {
    if r.Start? {
    } else {
      PasskeysAreAccount(otp, r.earlier, c);
    }
  }

  ghost predicate OwnsPasskey(r: Run, u: UserId) {
    exists c :: PasskeyOwner(r, c) == Some(u)
  }

  lemma OwnsIff(otp: Otp, r: Run, u: UserId)
    ensures OwnsPasskey(r, u) <==> exists c :: c in After(otp, r).passkeys && After(otp, r).passkeys[c] == u
  {
    var passkeys := After(otp, r).passkeys;
    if c :| PasskeyOwner(r, c) == Some(u) {
      PasskeysAreAccount(otp, r, c);
      assert c in passkeys && passkeys[c] == u;
    }
    if c :| c in passkeys && passkeys[c] == u {
      PasskeysAreAccount(otp, r, c);
      assert PasskeyOwner(r, c) == Some(u);
    }
  }

  /** And the flag: on exactly with an active enrolment or a passkey. */
  lemma FlagIsAccount(otp: Otp, r: Run, u: UserId)
    ensures u in After(otp, r).enabled <==> EnrolmentOf(otp, r, u).Active? || OwnsPasskey(r, u)
  {
    FlagIsDerived(otp, r, u);
    OwnsIff(otp, r, u);
    RowIsAccount(otp, r, u);
  }

  // ---- what a request answers ----

  /** The answers of enrolment and passkey requests after any run. */
  lemma AnswersAre(otp: Otp, r: Run, u: UserId, secret: Secret, readable: bool, code: string, at: Step, step: Step,
                   c: CredentialId)
    ensures var now, e := After(otp, r), EnrolmentOf(otp, r, u);
            && (Begin(now, u, secret, readable).1 <==> !e.Active?)
            && (Confirm(otp, now, u, code, at, step).1
                <==> e.Pending? && e.readable && Accepts(otp, e.secret, code, at))
            && (Register(now, u, c).1 <==> PasskeyOwner(r, c) == None)
            && (DeletePasskey(now, u, c).1 <==> PasskeyOwner(r, c) == Some(u))
  {
    RowIsAccount(otp, r, u);
    PasskeysAreAccount(otp, r, c);
    var e := EnrolmentOf(otp, r, u);
    if e.Pending? {
      AcceptsIff(otp, e.secret, code, at);
    }
  }

  /** `verify` after any run: it succeeds exactly for an active readable enrolment, a step later than
      every earlier success and a code that spells a password within one step of the clock; each
      other answer has its own reason. */
  lemma VerifyAnswersAre(otp: Otp, r: Run, u: UserId, code: string, step: Step, at: Step)
    ensures var answer, e := Verify(otp, After(otp, r), u, code, step, at).1, EnrolmentOf(otp, r, u);
            && (answer == Success
                <==> e.Active? && e.readable && e.lastStep < step && Accepts(otp, e.secret, code, at))
            && (answer == Replay <==> e.Active? && e.readable && step <= e.lastStep)
            && (answer == DecryptionFailed <==> e.Active? && !e.readable)
            && (answer == MissingSecret <==> !e.Active? && OwnsPasskey(r, u))
  {
    RowIsAccount(otp, r, u);
    FlagIsAccount(otp, r, u);
    var e := EnrolmentOf(otp, r, u);
    if e.Active? {
      AcceptsIff(otp, e.secret, code, at);
    }
  }

  /** Two spellings with the same normal form are answered alike. */
  lemma SpellingsAreAlike(otp: Otp, s: State, u: UserId, code: string, other: string, step: Step, at: Step)
    requires otp.normal(code) == otp.normal(other)
    ensures Verify(otp, s, u, code, step, at) == Verify(otp, s, u, other, step, at)
    ensures Confirm(otp, s, u, code, at, step) == Confirm(otp, s, u, other, at, step)
  {
  }

  /** One of the run's confirmations or verifications. */
  predicate Requested(r: Run, u: UserId, code: string, step: Step, at: Step) {
    r.Then? &&
    (r.last == ConfirmEvent(u, code, step, at) || r.last == VerifyEvent(u, code, step, at)
     || Requested(r.earlier, u, code, step, at))
  }

  ghost predicate SpelledAt(otp: Otp, r: Run, u: UserId, secret: Secret, step: Step) {
    exists code, at :: Requested(r, u, code, step, at) && Accepts(otp, secret, code, at)
  }

  lemma SpelledLater(otp: Otp, r: Run, u: UserId, secret: Secret, step: Step)
    requires r.Then? && SpelledAt(otp, r.earlier, u, secret, step)
    ensures SpelledAt(otp, r, u, secret, step)
  {
    var code, at :| Requested(r.earlier, u, code, step, at) && Accepts(otp, secret, code, at);
    assert Requested(r, u, code, step, at);
  }

  lemma ActiveIfSuccess(otp: Otp, r: Run, u: UserId)
    requires SuccessSteps(otp, r, u) != []
    ensures EnrolmentOf(otp, r, u).Active? && u in After(otp, r).totp
    ensures After(otp, r).totp[u].secret == EnrolmentOf(otp, r, u).secret
  {
    StepsIncrease(otp, r, u);
    RowIsAccount(otp, r, u);
  }

  /** A request that adds a success spelled a password of the secret. */
  lemma LastIsSpelled(otp: Otp, r: Run, u: UserId)
    requires r.Then? && |SuccessSteps(otp, r, u)| > |SuccessSteps(otp, r.earlier, u)|
    ensures r.last.ConfirmEvent? || r.last.VerifyEvent?
    ensures SuccessSteps(otp, r, u) == SuccessSteps(otp, r.earlier, u) + [r.last.step]
    ensures EnrolmentOf(otp, r, u).Active? && SpelledAt(otp, r, u, EnrolmentOf(otp, r, u).secret, r.last.step)
  {
    ActiveIfSuccess(otp, r, u);
    var secret := EnrolmentOf(otp, r, u).secret;
    AcceptsIff(otp, secret, r.last.code, r.last.at);
    assert Requested(r, u, r.last.code, r.last.step, r.last.at);
  }

  lemma SuccessesGrow(otp: Otp, r: Run, u: UserId)
    requires r.Then? && SuccessSteps(otp, r, u) != []
    ensures SuccessSteps(otp, r.earlier, u) <= SuccessSteps(otp, r, u)
  {
  }

  lemma SecretStays(otp: Otp, r: Run, u: UserId)
    requires r.Then? && EnrolmentOf(otp, r, u).Active? && EnrolmentOf(otp, r.earlier, u).Active?
    ensures EnrolmentOf(otp, r, u).secret == EnrolmentOf(otp, r.earlier, u).secret
  {
  }

  /** Every success of the current enrolment came from a request whose code spelled a password of
      its secret within one step of the clock. */
  lemma {:induction false} SuccessesAreSpelled(otp: Otp, r: Run, u: UserId, i: nat)
    requires i < |SuccessSteps(otp, r, u)|
    ensures EnrolmentOf(otp, r, u).Active?
    ensures SpelledAt(otp, r, u, EnrolmentOf(otp, r, u).secret, SuccessSteps(otp, r, u)[i])
  {
    if r.Start? {
    } else if i < |SuccessSteps(otp, r.earlier, u)| {
      SuccessesGrow(otp, r, u);
      ActiveIfSuccess(otp, r, u);
      SuccessesAreSpelled(otp, r.earlier, u, i);
      SecretStays(otp, r, u);
      SpelledLater(otp, r, u, EnrolmentOf(otp, r, u).secret, SuccessSteps(otp, r, u)[i]);
    } else {
      LastIsSpelled(otp, r, u);
    }
  }

  // ---- recovery codes ----

  /** What an MFA run is to the recovery codes. */
  function CodeRun(r: Run): RecoveryCodes.Run {
    if r.Start? then RecoveryCodes.Start
    else
      var before := CodeRun(r.earlier);
      match r.last
      case GenerateEvent(u, draws) => RecoveryCodes.Then(before, RecoveryCodes.Generate(u, draws))
      case UseEvent(u, code) => RecoveryCodes.Then(before, RecoveryCodes.Use(u, code))
      case DisableEvent(u) => RecoveryCodes.Then(before, RecoveryCodes.DeleteAll(u))
      case _ => before
  }

  lemma RecoveryAfter(otp: Otp, s: State, e: Event)
    ensures Next(otp, s, e).recovery
            == match e
               case GenerateEvent(u, draws) => RecoveryCodes.Generated(s.recovery, u, draws)
               case UseEvent(u, code) => RecoveryCodes.Consume(s.recovery, u, code).0
               case DisableEvent(u) => RecoveryCodes.Without(s.recovery, u)
               case _ => s.recovery
  {
  }

  /** So everything said of runs of recovery codes holds here too, a disable voiding the user's. */
  lemma {:induction false} CodesFollow(otp: Otp, r: Run)
    requires RecoveryCodes.FairDraws(CodeRun(r))
    ensures After(otp, r).recovery == RecoveryCodes.Replay(CodeRun(r))
  {
    if r.Start? {
    } else {
      CodesFollow(otp, r.earlier);
      RecoveryAfter(otp, After(otp, r.earlier), r.last);
      hide Next;
    }
  }
}
