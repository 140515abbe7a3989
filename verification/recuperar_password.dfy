/** The password-recovery screen
    (src/app/components/recuperar-password/recuperar-password.component.ts):
    step 1 checks that the email is registered, step 2 sets a new
    password for it. */
module RecuperarPassword {
  import opened Common
  import opened Models
  import AuthService
  import PasswordValidator
  import PasswordConfirmation

  /** The component's fields, with the step-2 form's `newPassword` and
      `confirmPassword` controls and the mismatch mark as one pair. */
  datatype RecoveryState = RecoveryState(
    step: int,
    loading: bool,
    errorMessage: string,
    successMessage: string,
    emailToRecover: string,
    passwordForm: PasswordConfirmation.PasswordPair)

  const Initial := RecoveryState(1, false, "", "", "", PasswordConfirmation.EmptyPair)

  const EmailVerifiedMessage: string := "Email verificado correctamente. Ahora puedes establecer una nueva contraseña."
  const EmailUnknownMessage: string := "El correo electrónico no está registrado en nuestro sistema."
  const EmailCheckFailedMessage: string := "Error al verificar el correo electrónico. Por favor, intenta nuevamente."
  const PasswordUpdatedMessage: string := "Contraseña actualizada correctamente. Serás redirigido al login."
  const ResetRejectedFallback: string := "Error al actualizar la contraseña."
  const ResetFailedMessage: string := "Error al actualizar la contraseña. Por favor, intenta nuevamente."
  const RedirectDelayMs: nat := 3000

  /** The password form is valid when both controls are filled in
      (`Validators.required`), the new password passes the strength rule,
      the group validator finds the two equal and no `passwordMismatch`
      mark is left on the confirmation control. */
  function PasswordFormValid(f: PasswordConfirmation.PasswordPair): (ok: bool)
    ensures ok ==> PasswordValidator.Strong(f.password) && f.password == f.confirm && f.confirm != ""
    ensures f.confirmMarked ==> !ok
  {
    && f.password != ""
    && f.confirm != ""
    && PasswordValidator.Strength(f.password).None?
    && PasswordConfirmation.PairValid(f)
  }

  /** Typing into the `newPassword` control. */
  function EditNewPassword(s: RecoveryState, v: string): (r: RecoveryState)
    ensures r.(passwordForm := s.passwordForm) == s
    ensures r.passwordForm.password == v && r.passwordForm.confirm == s.passwordForm.confirm
    ensures r.passwordForm.confirmMarked <==> s.passwordForm.confirmMarked || v != s.passwordForm.confirm
  {
    s.(passwordForm := PasswordConfirmation.EditPassword(s.passwordForm, v))
  }

  /** Typing into the `confirmPassword` control. */
  function EditConfirmPassword(s: RecoveryState, v: string): (r: RecoveryState)
    ensures r.(passwordForm := s.passwordForm) == s
    ensures r.passwordForm.confirm == v && r.passwordForm.password == s.passwordForm.password
    ensures r.passwordForm.confirmMarked <==> v != s.passwordForm.password
  {
    s.(passwordForm := PasswordConfirmation.EditConfirm(s.passwordForm, v))
  }

  /** `onSubmitEmail()` up to the call of `checkEmailExists`;
      `emailValid` is the verdict of the email control's validators. */
  function OnSubmitEmail(s: RecoveryState, emailValid: bool, email: string): (r: (RecoveryState, Option<string>))
    ensures !emailValid ==> r == (s, None)
    ensures emailValid ==> r.0 == s.(loading := true, errorMessage := "", successMessage := "")
    ensures emailValid ==> r.1 == Some(email)
  {
    if !emailValid then (s, None)
    else (s.(loading := true, errorMessage := "", successMessage := ""), Some(email))
  }

  /** The callbacks of `checkEmailExists(email)`; `email` is the address
      that was submitted. */
  function OnEmailChecked(s: RecoveryState, email: string, reply: Reply<bool>): (r: RecoveryState)
    ensures !r.loading
    ensures reply == Ok(true) ==>
              r == s.(loading := false, step := 2, emailToRecover := email, successMessage := EmailVerifiedMessage)
    ensures reply == Ok(false) ==> r == s.(loading := false, errorMessage := EmailUnknownMessage)
    ensures reply.Failed? ==> r == s.(loading := false, errorMessage := EmailCheckFailedMessage)
  {
    match reply
    case Ok(found) =>
      if found then s.(loading := false, emailToRecover := email, step := 2, successMessage := EmailVerifiedMessage)
      else s.(loading := false, errorMessage := EmailUnknownMessage)
    case Failed => s.(loading := false, errorMessage := EmailCheckFailedMessage)
  }

  /** The reset request: the email being recovered and the new password. */
  datatype ResetRequest = ResetRequest(email: string, newPassword: string)

  /** `onSubmitNewPassword()` up to the call of `resetPassword`. */
  function OnSubmitNewPassword(s: RecoveryState): (r: (RecoveryState, Option<ResetRequest>))
    ensures !PasswordFormValid(s.passwordForm) ==> r == (s, None)
    ensures PasswordFormValid(s.passwordForm) ==>
              r.0 == s.(loading := true, errorMessage := "", successMessage := "")
              && r.1 == Some(ResetRequest(s.emailToRecover, s.passwordForm.password))
  {
    if !PasswordFormValid(s.passwordForm) then (s, None)
    else (s.(loading := true, errorMessage := "", successMessage := ""),
          Some(ResetRequest(s.emailToRecover, s.passwordForm.password)))
  }

  /** Only strong, confirmed passwords are sent, and always for the email
      checked in step 1. */
  lemma SentPasswordIsStrong(s: RecoveryState)
    requires OnSubmitNewPassword(s).1.Some?
    ensures var req := OnSubmitNewPassword(s).1.value;
      && PasswordValidator.Strong(req.newPassword)
      && req.newPassword == s.passwordForm.confirm
      && !s.passwordForm.confirmMarked
      && req.email == s.emailToRecover
  {
  }

  /** Conversely, every strong password whose confirmation matches and
      carries no mark is sent, for the email checked in step 1. */
  lemma StrongConfirmedPasswordIsSent(s: RecoveryState)
    requires s.passwordForm.password == s.passwordForm.confirm
    requires PasswordValidator.Strong(s.passwordForm.password)
    requires !s.passwordForm.confirmMarked
    ensures OnSubmitNewPassword(s).1 == Some(ResetRequest(s.emailToRecover, s.passwordForm.password))
  {
  }

  /** Scenario: in step 2 the user types the confirmation first and then
      the same strong password. The mark set while `newPassword` was still
      empty stays, so the submit sends nothing; typing the confirmation
      again clears the mark and the same submit sends the reset. */
  lemma ConfirmTypedFirstBlocksSubmit(s: RecoveryState)
    requires s.passwordForm == PasswordConfirmation.EmptyPair
    ensures var typed := EditNewPassword(EditConfirmPassword(s, "Test123"), "Test123");
      && typed.passwordForm.password == typed.passwordForm.confirm
      && OnSubmitNewPassword(typed).1.None?
      && OnSubmitNewPassword(EditConfirmPassword(typed, "Test123")).1
           == Some(ResetRequest(s.emailToRecover, "Test123"))
  {
    PasswordValidator.AcceptsValidExamples();
  }

  /** The callbacks of `resetPassword(...)`: a success schedules the
      redirect to the login page; a refusal shows the response's message
      or a fallback when that is empty. */
  function OnResetReply(s: RecoveryState, reply: Reply<AuthService.ResetResponse>): (r: (RecoveryState, Option<Redirect>))
    ensures !r.0.loading && r.0.step == s.step && r.0.emailToRecover == s.emailToRecover
    ensures reply.Ok? && reply.value.success ==>
              r == (s.(loading := false, successMessage := PasswordUpdatedMessage),
                    Some(Redirect(LoginPage, RedirectDelayMs)))
    ensures reply.Ok? && !reply.value.success ==>
              r == (s.(loading := false,
                       errorMessage := if reply.value.message != "" then reply.value.message else ResetRejectedFallback),
                    None)
    ensures reply.Failed? ==> r == (s.(loading := false, errorMessage := ResetFailedMessage), None)
  {
    match reply
    case Ok(resp) =>
      if resp.success then
        (s.(loading := false, successMessage := PasswordUpdatedMessage), Some(Redirect(LoginPage, RedirectDelayMs)))
      else
        (s.(loading := false, errorMessage := OrElse(resp.message, ResetRejectedFallback)), None)
    case Failed => (s.(loading := false, errorMessage := ResetFailedMessage), None)
  }

  /** `goBack()`: from step 2 back to step 1 with both messages cleared;
      from any other step, navigate to the login page. */
  function GoBack(s: RecoveryState): (r: (RecoveryState, Option<Route>))
    ensures s.step == 2 ==> r == (s.(step := 1, successMessage := "", errorMessage := ""), None)
    ensures s.step != 2 ==> r == (s, Some(LoginPage))
  {
    if s.step == 2 then (s.(step := 1, successMessage := "", errorMessage := ""), None)
    else (s, Some(LoginPage))
  }

  /** Step 1 against the real helper: with the user list the service
      fetched, a valid submit reaches step 2 exactly when some user has
      that email, and then step 2 will recover that email. */
  lemma EmailStepAgainstUserList(s: RecoveryState, email: string, users: seq<Usuario>)
    ensures var (mid, sent) := OnSubmitEmail(s, true, email);
      var after := OnEmailChecked(mid, email, Ok(AuthService.CheckEmailExists(users, email)));
      && sent == Some(email)
      && !after.loading
      && ((exists i :: 0 <= i < |users| && users[i].email == email) ==>
            after.step == 2 && after.emailToRecover == email && after.successMessage == EmailVerifiedMessage)
      && ((forall i :: 0 <= i < |users| ==> users[i].email != email) ==>
            after.step == s.step && after.emailToRecover == s.emailToRecover && after.errorMessage == EmailUnknownMessage)
  {
  }

  /** Scenario: the service refuses the reset with its own message, which
      is shown as is; with an empty message the fallback is shown. */
  lemma RefusalShowsResponseMessage(s: RecoveryState, message: string)
    ensures OnResetReply(s, Ok(AuthService.ResetResponse(false, message))).0.errorMessage
              == (if message == "" then ResetRejectedFallback else message)
  {
  }

  /** Step 2 against the real helper: a reset for a recovered email that is
      no longer in the user list shows the service's "not found" text. */
  lemma ResetAgainstUserList(s: RecoveryState, users: seq<Usuario>, newPassword: string)
    requires !AuthService.CheckEmailExists(users, s.emailToRecover)
    ensures OnResetReply(s, Ok(AuthService.ResetPassword(users, s.emailToRecover, newPassword))).0.errorMessage
              == AuthService.UserNotFoundMessage
  {
    AuthService.ResetSucceedsIffEmailExists(users, s.emailToRecover, newPassword);
  }

  /** Going back from step 2 and then again leaves the screen: the second
      `goBack()` navigates to the login page. */
  lemma GoBackTwiceLeaves(s: RecoveryState)
    requires s.step == 2
    ensures GoBack(GoBack(s).0).1 == Some(LoginPage)
    ensures GoBack(s).0.step == 1
  {
  }
}
