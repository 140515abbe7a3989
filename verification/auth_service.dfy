/** The session store (src/app/services/auth.service.ts): a bearer token
    kept in tab-scoped storage and the current user published to
    subscribers, plus the two recovery helpers that scan the full user
    list. */
module AuthService {
  import opened Common
  import opened Models

  /** `token` is `sessionStorage.getItem('token')` (`None` is `null`);
      `currentUser` is the value of the `BehaviorSubject`. */
  datatype Session = Session(token: Option<string>, currentUser: Option<Usuario>)

  /** `if (token)`: a stored token counts only when it is not empty. */
  function HasToken(s: Session): (b: bool)
    ensures b ==> s.token.Some?
    ensures s.token == None || s.token == Some("") ==> !b
  {
    s.token.Some? && Truthy(s.token.value)
  }

  /** The constructor: the subject starts at `null`; when storage already
      holds a non-empty token, `loadCurrentUser()` is started (the
      boolean says so). */
  function Startup(stored: Option<string>): (r: (Session, bool))
    ensures r.0.currentUser.None? && r.0.token == stored
    ensures r.1 <==> stored.Some? && stored.value != ""
  {
    var s := Session(stored, None);
    (s, HasToken(s))
  }

  /** The synchronous part of `loadCurrentUser()`: it either answers at
      once (no token) or sends `GET /usuarios/me`. */
  datatype LoadStart =
    | Answered(session: Session, emitted: Option<Usuario>)
    | ProfileRequested(session: Session)

  function LoadCurrentUser(s: Session): (r: LoadStart)
    ensures !HasToken(s) ==> r == Answered(s.(currentUser := None), None)
    ensures HasToken(s) ==> r == ProfileRequested(s)
  {
    if !HasToken(s) then Answered(s.(currentUser := None), None) else ProfileRequested(s)
  }

  /** The reply to `GET /usuarios/me`: on success the user is published
      and the token left alone; on any failure the token is removed and
      `null` is published and emitted in place of an error. Returns the new
      session and the value the observable emits. */
  function OnProfileReply(s: Session, reply: Reply<Usuario>): (r: (Session, Option<Usuario>))
    ensures reply.Ok? ==> r.0 == s.(currentUser := Some(reply.value)) && r.1 == Some(reply.value)
    ensures reply.Failed? ==> r.0 == Session(None, None) && r.1.None?
  {
    match reply
    case Ok(u) => (s.(currentUser := Some(u)), Some(u))
    case Failed => (Session(None, None), None)
  }

  /** `logout()`. The `currentUser` storage key it also removes is never
      written anywhere, so it is not modelled. */
  function Logout(s: Session): (r: Session)
    ensures r.token.None? && r.currentUser.None?
  {
    Session(None, None)
  }

  /** `isLoggedIn()`: a token is stored and it is not the empty string. */
  function IsLoggedIn(s: Session): (b: bool)
    ensures b <==> s.token.Some? && s.token.value != ""
  {
    match s.token
    case None => false
    case Some(t) => t != ""
  }

  /** The two readings of "a token is stored" agree: `isLoggedIn()` holds
      exactly when `loadCurrentUser()` goes to the network. */
  lemma LoggedInIffProfileFetched(s: Session)
    ensures IsLoggedIn(s) <==> LoadCurrentUser(s).ProfileRequested?
  {
  }

  lemma LogoutIdempotent(s: Session)
    ensures Logout(Logout(s)) == Logout(s)
    ensures !IsLoggedIn(Logout(s))
  {
  }

  /** A failed profile fetch leaves the same session as `logout()`. */
  lemma ProfileFailureIsLogout(s: Session)
    ensures OnProfileReply(s, Failed).0 == Logout(s)
  {
  }

  /** The body of a successful `POST /usuarios/login`, as far as the code
      reads it. `token` is optional in the response type. */
  datatype LoginResponse = LoginResponse(token: Option<string>, rol: Option<int>)

  /** `sessionStorage.setItem('token', v)` stores the string form of `v`:
      a missing token becomes the text "undefined". */
  function StoredText(v: Option<string>): (t: string)
    ensures v.Some? ==> t == v.value
    ensures v.None? ==> t == "undefined"
  {
    match v
    case Some(t) => t
    case None => "undefined"
  }

  /** The two `tap`s of `login()` on a successful reply: store the token,
      then start `loadCurrentUser()`. A failed login passes the error on
      and changes nothing, so it needs no transition. */
  function OnLoginReply(s: Session, resp: LoginResponse): (r: LoadStart)
    ensures r.session.token == Some(StoredText(resp.token))
    ensures r.session.currentUser == (if StoredText(resp.token) == "" then None else s.currentUser)
    ensures r.ProfileRequested? <==> StoredText(resp.token) != ""
  {
    LoadCurrentUser(s.(token := Some(StoredText(resp.token))))
  }

  /** Scenario: a login that returns the token "T" stores it and fetches
      the profile; the published user is the one that fetch returns. */
  lemma LoginStoresToken(s: Session, rol: Option<int>, u: Usuario)
    ensures var r := OnLoginReply(s, LoginResponse(Some("T"), rol));
      && r.ProfileRequested? && r.session.token == Some("T") && IsLoggedIn(r.session)
      && OnProfileReply(r.session, Ok(u)).0 == Session(Some("T"), Some(u))
  {
  }

  /** A login reply without a token still leaves the client logged in,
      because the text "undefined" is stored in its place. */
  lemma LoginWithoutTokenStaysLoggedIn(s: Session, rol: Option<int>)
    ensures IsLoggedIn(OnLoginReply(s, LoginResponse(None, rol)).session)
  {
  }

  /** Nothing cancels a pending profile fetch: when its success arrives
      after `logout()`, a user is published although no token is stored. */
  lemma LateProfileAfterLogout(s: Session, u: Usuario)
    ensures var after := OnProfileReply(Logout(s), Ok(u)).0;
      after.currentUser == Some(u) && !IsLoggedIn(after)
  {
  }

  /** What `getRole()` can return: `null` when nobody is logged in,
      `undefined` when the user's `rol` is a bare number (it has no `id`),
      the role id otherwise. */
  datatype RoleLookup = NullRole | UndefinedRole | RoleId(id: int)

  function GetRole(s: Session): (r: RoleLookup)
    ensures r.NullRole? <==> s.currentUser.None?
    ensures r.UndefinedRole? <==> s.currentUser.Some? && s.currentUser.value.rol.RolNumber?
    ensures r.RoleId? <==> s.currentUser.Some? && s.currentUser.value.rol.RolRecord?
    ensures r.RoleId? ==> r.id == s.currentUser.value.rol.id
  {
    match s.currentUser
    case None => NullRole
    case Some(u) =>
      match u.rol
      case RolRecord(id, _) => RoleId(id)
      case RolNumber(_) => UndefinedRole
  }

  /** What `getRoleName()` can return, read the same way as `GetRole`. */
  datatype RoleNameLookup = NullName | UndefinedName | RoleName(nombre: string)

  function GetRoleName(s: Session): (r: RoleNameLookup)
    ensures r.NullName? <==> s.currentUser.None?
    ensures r.UndefinedName? <==> s.currentUser.Some? && s.currentUser.value.rol.RolNumber?
    ensures r.RoleName? <==> s.currentUser.Some? && s.currentUser.value.rol.RolRecord?
    ensures r.RoleName? ==> r.nombre == s.currentUser.value.rol.nombre
  {
    match s.currentUser
    case None => NullName
    case Some(u) =>
      match u.rol
      case RolRecord(_, nombre) => RoleName(nombre)
      case RolNumber(_) => UndefinedName
  }

  /** The two role readers agree on when a role is known. */
  lemma RoleReadersAgree(s: Session)
    ensures GetRole(s).RoleId? <==> GetRoleName(s).RoleName?
    ensures GetRole(s).NullRole? <==> GetRoleName(s).NullName?
  {
  }

  /** After `logout()` the role is `null`. */
  lemma RoleAfterLogout(s: Session)
    ensures GetRole(Logout(s)) == NullRole
  {
  }

  // ---------------------------------------------------------------------
  // Password recovery helpers over the full list from `GET /usuarios`

  /** `usuarios.some(user => user.email === email)`. */
  function CheckEmailExists(users: seq<Usuario>, email: string): (b: bool)
    ensures b <==> exists i :: 0 <= i < |users| && users[i].email == email
  {
    if |users| == 0 then false
    else if users[0].email == email then true
    else
      var b := CheckEmailExists(users[1..], email);
      assert b ==> exists i :: 0 <= i < |users| && users[i].email == email by {
        if b {
          var j :| 0 <= j < |users[1..]| && users[1..][j].email == email;
          assert users[j + 1].email == email;
        }
      }
      b
  }

  /** `usuarios.find(u => u.email === email)`: the first user with that
      email, if any. */
  function FindByEmail(users: seq<Usuario>, email: string): (r: Option<nat>)
    ensures r.Some? ==> r.value < |users| && users[r.value].email == email
    ensures r.Some? ==> forall j :: 0 <= j < r.value ==> users[j].email != email
    ensures r.None? ==> forall j :: 0 <= j < |users| ==> users[j].email != email
  {
    if |users| == 0 then None
    else if users[0].email == email then Some(0)
    else
      match FindByEmail(users[1..], email)
      case None => None
      case Some(k) => Some(k + 1)
  }

  datatype ResetResponse = ResetResponse(success: bool, message: string)

  const ResetDoneMessage: string := "Contraseña actualizada correctamente"
  const UserNotFoundMessage: string := "Usuario no encontrado"

  /** `resetPassword(email, newPassword)` once the user list has arrived.
      The new password is not sent anywhere. */
  function ResetPassword(users: seq<Usuario>, email: string, newPassword: string): (r: ResetResponse)
    ensures r.success ==> r.message == ResetDoneMessage
    ensures !r.success ==> r.message == UserNotFoundMessage
  {
    if FindByEmail(users, email).Some? then ResetResponse(true, ResetDoneMessage)
    else ResetResponse(false, UserNotFoundMessage)
  }

  /** The two helpers agree: a reset succeeds exactly for an email the
      existence check accepts, whatever the new password. */
  lemma ResetSucceedsIffEmailExists(users: seq<Usuario>, email: string, newPassword: string)
    ensures ResetPassword(users, email, newPassword).success <==> CheckEmailExists(users, email)
  {
  }
}
