/** The login screen (src/app/components/login/login.component.ts). */
module Login {
  import opened Common
  import opened Models
  import AuthService

  datatype LoginState = LoginState(loading: bool, errorMessage: string)

  const Initial := LoginState(false, "")

  datatype LoginRequest = LoginRequest(email: string, password: string)

  /** `onSubmit()` up to the call of `authService.login`; `formValid` is
      the verdict of the form's built-in validators. */
  function OnSubmit(s: LoginState, formValid: bool, email: string, password: string): (r: (LoginState, Option<LoginRequest>))
    ensures !formValid ==> r == (s, None)
    ensures formValid ==> r.0 == LoginState(true, "") && r.1 == Some(LoginRequest(email, password))
  {
    if !formValid then (s, None)
    else (LoginState(true, ""), Some(LoginRequest(email, password)))
  }

  const PatientRol: int := 1
  const WorkerRol: int := 2
  const UnknownRolMessage: string := "Rol de usuario no reconocido."
  const BadCredentialsMessage: string := "Credenciales inválidas. Por favor, intenta nuevamente."

  /** The component's `next` callback, run on the session the service
      left behind. Roles 1 and 2 pick a home page; any other role (or no
      role) logs out and shows an error. */
  function OnLoginNext(s: LoginState, session: AuthService.Session, resp: AuthService.LoginResponse)
    : (r: (LoginState, AuthService.Session, Option<Route>))
    ensures !r.0.loading
    ensures resp.rol == Some(PatientRol) ==> r == (LoginState(false, s.errorMessage), session, Some(HomePaciente))
    ensures resp.rol == Some(WorkerRol) ==> r == (LoginState(false, s.errorMessage), session, Some(HomeTrabajador))
    ensures resp.rol != Some(PatientRol) && resp.rol != Some(WorkerRol) ==>
              r == (LoginState(false, UnknownRolMessage), AuthService.Logout(session), None)
  {
    var s' := s.(loading := false);
    if resp.rol == Some(PatientRol) then (s', session, Some(HomePaciente))
    else if resp.rol == Some(WorkerRol) then (s', session, Some(HomeTrabajador))
    else (s'.(errorMessage := UnknownRolMessage), AuthService.Logout(session), None)
  }

  /** The component's `error` callback: one message, no navigation. */
  function OnLoginError(s: LoginState): (r: LoginState)
    ensures r == LoginState(false, BadCredentialsMessage)
  {
    s.(loading := false, errorMessage := BadCredentialsMessage)
  }

  /** A whole login attempt after a valid submit: the service's `tap`s
      run first, then the component's callback. */
  function Attempt(s: LoginState, session: AuthService.Session, reply: Reply<AuthService.LoginResponse>)
    : (r: (LoginState, AuthService.Session, Option<Route>))
    ensures !r.0.loading
    ensures reply.Failed? ==> r == (LoginState(false, BadCredentialsMessage), session, None)
    ensures r.2.Some? ==> reply.Ok? && r.0.errorMessage == s.errorMessage
  {
    match reply
    case Failed => (OnLoginError(s), session, None)
    case Ok(resp) => OnLoginNext(s, AuthService.OnLoginReply(session, resp).session, resp)
  }

  /** Navigation happens only after a successful reply with a known role,
      and every navigation goes to the home page of that role and leaves
      the message alone; whenever nothing navigates, an error message is
      shown. */
  lemma NavigationFollowsRole(s: LoginState, session: AuthService.Session, reply: Reply<AuthService.LoginResponse>)
    ensures var (s', _, nav) := Attempt(s, session, reply);
      && !s'.loading
      && (nav == Some(HomePaciente) <==> reply.Ok? && reply.value.rol == Some(PatientRol))
      && (nav == Some(HomeTrabajador) <==> reply.Ok? && reply.value.rol == Some(WorkerRol))
      && (nav.None? ==> s'.errorMessage in {UnknownRolMessage, BadCredentialsMessage})
      && (nav.Some? ==> s'.errorMessage == s.errorMessage)
  {
  }

  /** A successful login with an unrecognised role ends logged out, and a
      failed login leaves the session as it was. */
  lemma SessionAfterAttempt(s: LoginState, session: AuthService.Session, reply: Reply<AuthService.LoginResponse>)
    ensures var (_, session', nav) := Attempt(s, session, reply);
      && (reply.Failed? ==> session' == session)
      && (reply.Ok? && nav.None? ==> !AuthService.IsLoggedIn(session'))
      && (reply.Ok? && nav.Some? ==> session'.token == Some(AuthService.StoredText(reply.value.token)))
  {
  }
}
