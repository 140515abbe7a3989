# Clinic portal front-end: verified model of its client-side logic

This project models, in Dafny, the client-side logic of an Angular clinic
portal: patients and clinic workers log in, register, recover a password, book
lab-analysis appointments and list or cancel them. Almost every screen is a
form bound to a REST backend. The model keeps the decisions the browser makes
itself. Each HTTP outcome is an input value, and each `subscribe` callback is a
separate pure transition over an immutable state record.

- **Password-strength rule and message formatter** (`PasswordValidator`). The
  rule maps a password to `null` or a set of violated-rule flags. The formatter
  turns flags into a Spanish sentence. `Text` holds the `join(', ')` used by the
  formatter, plus a splitter. The splitter shows that the sentence can be read
  back into the flags that produced it.
- **Session store** (`AuthService`). State: an optional stored token and an
  optional current user. Transitions: startup, `loadCurrentUser`, the profile
  reply, the `login` reply and `logout`. Queries: `isLoggedIn`, `getRole` and
  `getRoleName`. Two pure helpers scan the full user list: `checkEmailExists`
  and `resetPassword`.
- **Password confirmation** (`PasswordConfirmation`): the "passwords must
  match" group validator that both the registration and the recovery form
  install, and the `passwordMismatch` mark it leaves on the confirmation
  control. The validator sets that mark on a mismatch and never clears it. Only
  typing into the confirmation control clears it. So a confirmation typed
  before an equal password keeps the form invalid until it is typed again.
- **Registration** (`Registro`): the submit guard and payload, both register
  callbacks, and `formatRut`.
- **Login** (`Login`): the submit guard, the role-based dispatch and the error
  callback.
- **Password recovery** (`RecuperarPassword`): the step 1 / step 2 state
  machine, the step-2 password form and `goBack`.
- **Booking** (`AgendarCita`): the two guards, the request built from the form
  and both callbacks. `JsNumber` models `Number(...)` applied to the ids picked
  in the form.
- **Appointment list** (`ConsultarCitas`): the missing-user guard, the filter to
  the current user, the name join against the two catalogues, and
  `cancelarCita` with both of its callbacks.

The repository's own unit tests expect some behaviour the components and the
service do not have. The model follows the components and the service:

- The login test's mock reply carries `rolId`
  (src/app/components/login/login.component.spec.ts:98). The login callback
  reads `response.rol` instead.
- The service tests expect `POST /usuarios/verify-email` and
  `POST /usuarios/change-password`
  (src/app/services/auth.service.spec.ts:95 and :108). `checkEmailExists` and
  `resetPassword` instead fetch `GET /usuarios` and scan the list.
- The registration tests expect the 400 and 409 failures to show their own
  messages (src/app/components/registro/registro.component.spec.ts:175-226).
  The error callback always shows one generic message.

Some facts about the code are easy to miss:

- A profile fetch still pending at `logout()` publishes its user afterwards,
  while no token is stored (`AuthService.LateProfileAfterLogout`).
- A login reply without a token stores the text "undefined", which counts as
  logged in (`AuthService.LoginWithoutTokenStaysLoggedIn`).
- `getRole` reads `rol.id`, but the user type declares `rol` as a number.
  `Models.RolField` keeps both shapes. For a bare number, `getRole` yields
  `undefined`.

## Model

| member | source | states |
|---|---|---|
| PasswordValidator.Test | src/app/validators/password.validator.ts:27-39 | the regex test finds a match exactly when some character of the value is in the class |
| PasswordValidator.Strength | src/app/validators/password.validator.ts:11-44 | an empty value gives `null`. For a non-empty value: `null` exactly when it is strong (at least 6 characters, with an uppercase letter, a lowercase letter and a digit). Otherwise each flag is set exactly when its rule fails: `minLength` carries (6, actual length), and `required` is never set |
| PasswordValidator.ErrorMessage | src/app/validators/password.validator.ts:49-81 | `null` gives `''` and `required` gives the fixed "requerida" sentence. Otherwise the message is empty exactly when no known flag is set |
| PasswordValidator.MessageNamesReportedRules | src/app/validators/password.validator.ts:60-78 | for a value without `required`, reading the message back recovers exactly the reported flags |
| PasswordValidator.ReadFormatted | src/app/validators/password.validator.ts:76-78 | for any non-empty flag set, the message starts with the fixed head. The rest splits on ", " into exactly the fragments, in the fixed order minLength, uppercase, lowercase, number. It reads back as that flag set |
| PasswordValidator.Fragments | src/app/validators/password.validator.ts:60-74 | at most four fragments, each one of the four rule texts. The list is non-empty exactly when some flag is reported |
| PasswordValidator.FragmentListed | src/app/validators/password.validator.ts:60-74 | each fragment is pushed exactly when its flag is set |
| PasswordValidator.MessageEmptyIffAccepted | src/app/validators/password.validator.ts:15-81 | the message for the rule's own result is empty exactly when the rule accepts. For a non-empty value, that is exactly when the password is strong |
| PasswordValidator.RequiredTakesPriority | src/app/validators/password.validator.ts:56-58 | `required` yields exactly the "requerida" sentence, whatever else is set |
| PasswordValidator.AcceptsValidExamples | src/app/validators/password.validator.spec.ts:11-70 | 'Test123' and the 6-character 'Test12' are accepted |
| PasswordValidator.ShortExample | src/app/validators/password.validator.spec.ts:50-55 | 'Te1' gives only `minLength` with (6, 3) |
| PasswordValidator.WeakExample | src/app/validators/password.validator.spec.ts:57-64 | 'test' gives `minLength`, `noUppercase` and `noNumber` together |
| Text.Join | src/app/validators/password.validator.ts:77 | '' for no elements. Otherwise the first element starts the result, followed by the separator when more elements come |
| Text.JoinEndsWithLast | src/app/validators/password.validator.ts:77 | the joined string ends with the last element |
| Text.SplitJoin | src/app/validators/password.validator.ts:77 | splitting on ", " after joining with ", " gives the list back, for non-empty lists whose elements do not contain the separator |
| Text.SplitFragment | src/app/validators/password.validator.ts:77 | a fragment without the separator is split off whole |
| PasswordConfirmation.PasswordMatchValidator | src/app/components/registro/registro.component.ts:43-52 | a group error `passwordMismatch` appears, and confirmPassword is marked, exactly when the two values differ |
| PasswordConfirmation.MatchIsSymmetric | src/app/components/recuperar-password/recuperar-password.component.ts:50-59 | swapping the two values does not change the verdict |
| PasswordConfirmation.RunGroupValidator | src/app/components/registro/registro.component.ts:43-52 | a mismatch marks the confirmation. A match leaves the mark as it was, so an earlier mark is never cleared by the validator |
| PasswordConfirmation.EditPassword | src/app/components/registro/registro.component.ts:30-52 | typing a password keeps the confirmation. Afterwards the confirmation is marked exactly when it was already marked or now differs |
| PasswordConfirmation.EditConfirm | src/app/components/registro/registro.component.ts:31-52 | typing the confirmation drops its old mark. Afterwards it is marked exactly when it differs from the password |
| PasswordConfirmation.PairValid | src/app/components/registro/registro.component.ts:43-55 | a valid pair has equal values and no mark. A marked confirmation makes the pair invalid |
| PasswordConfirmation.EditsKeepMarkCoverage | src/app/components/registro/registro.component.ts:43-52 | starting from two empty controls, every edit keeps the rule that differing values are marked |
| PasswordConfirmation.ConfirmEditDecides | src/app/components/registro/registro.component.ts:31-52 | after typing the confirmation last, the pair is valid exactly when the confirmation equals the password |
| PasswordConfirmation.StaleMarkBlocksUntilConfirmEdited | src/app/components/recuperar-password/recuperar-password.component.ts:33-59 | typing 'Test123' as confirmation and then as password leaves equal values but an invalid pair. Typing the confirmation again makes it valid |
| Registro.FormValid | src/app/components/registro/registro.component.ts:26-55 | a valid form has passing field validators, no mark on the confirmation, and equal passwords. Any of those failing makes it invalid |
| Registro.OnSubmit | src/app/components/registro/registro.component.ts:54-77 | an invalid form (field validators or mismatch) changes nothing and sends nothing. A valid one sets loading, clears both messages and sends the payload |
| Registro.Payload | src/app/components/registro/registro.component.ts:69-75 | the payload is marked `activo` |
| Registro.PayloadKeepsEveryOtherField | src/app/components/registro/registro.component.ts:69-75 | putting confirmPassword back next to the payload restores the form, so only that field is dropped |
| Registro.SentPasswordWasConfirmed | src/app/components/registro/registro.component.ts:38-75 | a sent payload's password equals the confirmation typed, no mismatch mark was left, and the payload is active |
| Registro.ConfirmTypedFirstBlocksRegistration | src/app/components/registro/registro.component.ts:31-56 | with every field valid and equal passwords, a confirmation typed before the password blocks the submit. Typing the confirmation again lets it send |
| Registro.OnRegistered | src/app/components/registro/registro.component.ts:78-84 | loading off, the success message set, the error message kept, and a redirect to /login after 2000 ms |
| Registro.OnRegisterFailed | src/app/components/registro/registro.component.ts:85-89 | loading off and the one generic error message, whatever the failure |
| Registro.LoadingEndsAfterEitherCallback | src/app/components/registro/registro.component.ts:65-89 | loading is on after a valid submit and off after either callback |
| Registro.Clean | src/app/components/registro/registro.component.ts:98 | the cleaned value is no longer than the input and has only digits, k and K |
| Registro.CleanSingle | src/app/components/registro/registro.component.ts:98 | one character is kept exactly when it is a digit, k or K. With `CleanAppend`, this makes cleaning the in-order filter of those characters |
| Registro.CleanAppend | src/app/components/registro/registro.component.ts:98 | cleaning a concatenation is the concatenation of the cleaned parts |
| Registro.CleanKeepsRut | src/app/components/registro/registro.component.ts:98 | a value made only of digits, k and K is kept whole |
| Registro.CleanDropsOthers | src/app/components/registro/registro.component.ts:98 | a value with no digit, k or K cleans to '' |
| Registro.CleanFixedIff | src/app/components/registro/registro.component.ts:98 | cleaning changes nothing exactly when every character is a digit, k or K |
| Registro.CleanIdempotent | src/app/components/registro/registro.component.ts:98 | cleaning a cleaned value changes nothing |
| Registro.FormatRut | src/app/components/registro/registro.component.ts:97-103 | the output holds only digits, k, K and dashes, and is at most one character longer than the input |
| Registro.FormatRutShape | src/app/components/registro/registro.component.ts:98-101 | the output has only digits, k, K and at most one dash. With at least two cleaned characters it is the cleaned value with a dash before its last character (length + 1). Otherwise it is the cleaned value |
| Registro.FormatRutKeepsCharacters | src/app/components/registro/registro.component.ts:97-103 | cleaning the formatted value gives back the cleaned input: the dash is the only character added |
| Registro.FormatRutIdempotent | src/app/components/registro/registro.component.ts:97-103 | formatting the output again yields the same string |
| Registro.FormatRutMeetsPatternIff | src/app/components/registro/registro.component.ts:33 | the output passes the form's `^[0-9]+-[0-9kK]{1}$` exactly when the cleaned input has at least two characters and only its last may be k/K |
| Registro.FormatRutExample | src/app/components/registro/registro.component.spec.ts:262-272 | '123456789' becomes '12345678-9' |
| AuthService.Startup | src/app/services/auth.service.ts:15-30 | the user starts as `null`, and a profile load starts exactly when a non-empty token is already stored |
| AuthService.LoadCurrentUser | src/app/services/auth.service.ts:59-70 | with no (or an empty) token: publishes and emits `null` and sends no request. Otherwise: requests the profile with the session unchanged |
| AuthService.OnProfileReply | src/app/services/auth.service.ts:70-84 | success publishes and emits the user and keeps the token. Failure removes the token and publishes and emits `null`, without raising |
| AuthService.Logout | src/app/services/auth.service.ts:91-97 | no token and no user afterwards |
| AuthService.HasToken | src/app/services/auth.service.ts:60-62 | a missing token and the stored text '' both count as no token; a token counts only when one is stored |
| AuthService.IsLoggedIn | src/app/services/auth.service.ts:99-102 | true exactly when a token is stored and it is not '' |
| AuthService.LoggedInIffProfileFetched | src/app/services/auth.service.ts:59-102 | `isLoggedIn()` holds exactly when `loadCurrentUser()` goes to the network |
| AuthService.LogoutIdempotent | src/app/services/auth.service.ts:91-97 | logging out twice equals logging out once, and the result is not logged in |
| AuthService.ProfileFailureIsLogout | src/app/services/auth.service.ts:77-83 | a failed profile fetch leaves the same session as `logout()` |
| AuthService.StoredText | src/app/services/auth.service.ts:46 | storage keeps the token as given, and a missing token as the text "undefined" |
| AuthService.OnLoginReply | src/app/services/auth.service.ts:39-54 | the reply's token is stored before the user is reloaded. The profile is requested exactly when the stored text is non-empty |
| AuthService.LoginStoresToken | src/app/services/auth.service.ts:42-53 | a reply with token "T" stores "T", is logged in, and then publishes the fetched user |
| AuthService.LoginWithoutTokenStaysLoggedIn | src/app/services/auth.service.ts:44-47 | a reply without a token still leaves `isLoggedIn()` true |
| AuthService.LateProfileAfterLogout | src/app/services/auth.service.ts:70-97 | a profile success arriving after logout publishes a user while no token is stored |
| AuthService.GetRole | src/app/services/auth.service.ts:104-107 | `null` exactly without a user. `undefined` exactly when the user's `rol` is a bare number. Otherwise the role id, which is the record's `id` |
| AuthService.GetRoleName | src/app/services/auth.service.ts:109-112 | `null` exactly without a user. `undefined` exactly when the user's `rol` is a bare number. Otherwise the record's `nombre` |
| AuthService.RoleReadersAgree | src/app/services/auth.service.ts:104-112 | both readers agree on when the role is null and when it is known |
| AuthService.RoleAfterLogout | src/app/services/auth.service.ts:91-107 | after logout the role is `null` |
| AuthService.CheckEmailExists | src/app/services/auth.service.ts:115-118 | true exactly when some user's email equals the input |
| AuthService.FindByEmail | src/app/services/auth.service.ts:125 | the index of the first user with that email, or none when no user has it |
| AuthService.ResetPassword | src/app/services/auth.service.ts:121-132 | success carries the "actualizada" message and failure carries "Usuario no encontrado" |
| AuthService.ResetSucceedsIffEmailExists | src/app/services/auth.service.ts:115-132 | a reset succeeds exactly when the existence check accepts the email, whatever the new password |
| Login.OnSubmit | src/app/components/login/login.component.ts:32-42 | an invalid form changes nothing and sends nothing. A valid one sets loading, clears the error and sends the credentials |
| Login.OnLoginNext | src/app/components/login/login.component.ts:43-57 | loading off. Role 1 goes to /home-paciente and role 2 to /home-trabajador. Any other role logs out and sets "Rol de usuario no reconocido." |
| Login.OnLoginError | src/app/components/login/login.component.ts:58-62 | loading off and the invalid-credentials message |
| Login.Attempt | src/app/components/login/login.component.ts:42-63 | loading is off after any attempt. A failed request shows the invalid-credentials message, keeps the session and navigates nowhere. Navigation needs a successful reply and keeps the message |
| Login.NavigationFollowsRole | src/app/components/login/login.component.ts:42-63 | navigation happens exactly for a success with role 1 or 2, to that role's page, and keeps the message. No navigation means an error message |
| Login.SessionAfterAttempt | src/app/components/login/login.component.ts:42-63 | a failed login leaves the session alone. An unrecognised role ends logged out. A navigating login keeps the stored token |
| RecuperarPassword.PasswordFormValid | src/app/components/recuperar-password/recuperar-password.component.ts:33-36 | a valid form has a strong new password equal to a non-empty confirmation. A mismatch mark left on the confirmation makes it invalid |
| RecuperarPassword.EditNewPassword | src/app/components/recuperar-password/recuperar-password.component.ts:34-59 | typing the new password changes only the password form. The confirmation is marked exactly when it was already marked or now differs |
| RecuperarPassword.EditConfirmPassword | src/app/components/recuperar-password/recuperar-password.component.ts:35-59 | typing the confirmation changes only the password form. The confirmation is marked exactly when it differs from the new password |
| RecuperarPassword.OnSubmitEmail | src/app/components/recuperar-password/recuperar-password.component.ts:61-72 | an invalid email form changes nothing and sends nothing. A valid one sets loading, clears both messages and checks the email |
| RecuperarPassword.OnEmailChecked | src/app/components/recuperar-password/recuperar-password.component.ts:72-88 | loading is off in every branch. An existing email moves to step 2, recovers that email and sets the success message. An unknown email or a failed check keeps the step and sets an error |
| RecuperarPassword.OnSubmitNewPassword | src/app/components/recuperar-password/recuperar-password.component.ts:91-108 | an invalid password form sends nothing and changes nothing. Otherwise it sets loading, clears both messages and sends the typed password for `emailToRecover` |
| RecuperarPassword.SentPasswordIsStrong | src/app/components/recuperar-password/recuperar-password.component.ts:33-108 | a sent password passes the strength rule, equals its confirmation with no mismatch mark left, and goes with the email recovered in step 1 |
| RecuperarPassword.StrongConfirmedPasswordIsSent | src/app/components/recuperar-password/recuperar-password.component.ts:33-108 | conversely, any strong password with an equal, unmarked confirmation is sent as the reset for `emailToRecover` |
| RecuperarPassword.ConfirmTypedFirstBlocksSubmit | src/app/components/recuperar-password/recuperar-password.component.ts:33-108 | typing the confirmation before an equal strong password makes the submit send nothing. Typing the confirmation again makes the same submit send the reset |
| RecuperarPassword.OnResetReply | src/app/components/recuperar-password/recuperar-password.component.ts:108-125 | only loading and one message change, so step, email and the form are kept. Success sets its message and a /login redirect after 3000 ms. A refusal shows the response's message or a fallback. A failure shows the generic error |
| RecuperarPassword.GoBack | src/app/components/recuperar-password/recuperar-password.component.ts:128-136 | from step 2: back to step 1 with both messages cleared, and no navigation. From any other step: only navigates to /login |
| RecuperarPassword.EmailStepAgainstUserList | src/app/components/recuperar-password/recuperar-password.component.ts:61-88 | with the fetched user list: step 2 is reached for that email when some user has it. Otherwise the step and email are kept and the unknown-email error is shown |
| RecuperarPassword.RefusalShowsResponseMessage | src/app/components/recuperar-password/recuperar-password.component.ts:116-118 | a refusal's own message is shown as is, and an empty one gives the fallback |
| RecuperarPassword.ResetAgainstUserList | src/app/components/recuperar-password/recuperar-password.component.ts:108-118 | resetting an email absent from the user list shows "Usuario no encontrado" |
| RecuperarPassword.GoBackTwiceLeaves | src/app/components/recuperar-password/recuperar-password.component.ts:128-136 | from step 2, the first `goBack` returns to step 1 and the second navigates to /login |
| JsNumber.ToNumber | src/app/components/agendar-cita/agendar-cita.component.ts:61-62 | NaN exactly for a string that is not all digits. '' converts to 0 |
| JsNumber.ToDecimal | src/app/components/agendar-cita/agendar-cita.component.ts:61-62 | the text of an id is a non-empty digit string |
| JsNumber.ToNumberOfDecimal | src/app/components/agendar-cita/agendar-cita.component.ts:61-62 | converting the text of an id gives back that id |
| AgendarCita.RequestFor | src/app/components/agendar-cita/agendar-cita.component.ts:58-65 | the request carries the user id, the numeric conversions of both ids, and the date and time copied from the form |
| AgendarCita.OnSubmit | src/app/components/agendar-cita/agendar-cita.component.ts:42-66 | an invalid form sets "completa todos los campos" and sends nothing. A missing user or id sets the session error and sends nothing. Only when both guards pass are the messages cleared, loading set and the request sent |
| AgendarCita.OnCreated | src/app/components/agendar-cita/agendar-cita.component.ts:68-72 | loading off, the success message set, the form reset |
| AgendarCita.OnCreateFailed | src/app/components/agendar-cita/agendar-cita.component.ts:73-77 | loading off. The message is the server's `error` field when it is non-empty, otherwise the fallback. The form is kept |
| AgendarCita.SelectedIdsAreBooked | src/app/components/agendar-cita/agendar-cita.component.ts:58-65 | picking ids in the form books exactly those ids for the logged-in user |
| AgendarCita.BlockedSubmitKeepsState | src/app/components/agendar-cita/agendar-cita.component.ts:43-56 | a blocked submit shows an error and leaves loading, the success message and the form alone |
| ConsultarCitas.NameMap | src/app/components/consultar-citas/consultar-citas.component.ts:39-40 | an id is in the map exactly when some catalogue entry has it |
| ConsultarCitas.LaterEntryWins | src/app/components/consultar-citas/consultar-citas.component.ts:39-40 | a duplicated id maps to the name of its last entry |
| ConsultarCitas.CatalogueKeys | src/app/components/consultar-citas/consultar-citas.component.ts:39-40 | an id is a key of the analysis (or laboratory) name map exactly when some catalogue item has that id |
| ConsultarCitas.NameOrUnavailable | src/app/components/consultar-citas/consultar-citas.component.ts:46-47 | the mapped name when the id is present and the name non-empty, else 'No disponible' |
| ConsultarCitas.OwnRequests | src/app/components/consultar-citas/consultar-citas.component.ts:43 | no longer than the input, and holds exactly the fetched requests whose `usuarioId` is the user's |
| ConsultarCitas.OwnRequestsAppend | src/app/components/consultar-citas/consultar-citas.component.ts:43 | filtering distributes over concatenation, so relative order is kept |
| ConsultarCitas.OwnRequestsSingle | src/app/components/consultar-citas/consultar-citas.component.ts:43 | a single request is kept exactly when it is the user's |
| ConsultarCitas.OwnRequestsKeepsOwnList | src/app/components/consultar-citas/consultar-citas.component.ts:43 | a list of only the user's requests is returned whole |
| ConsultarCitas.OwnRequestsIdempotent | src/app/components/consultar-citas/consultar-citas.component.ts:43 | filtering twice equals filtering once |
| ConsultarCitas.Detail | src/app/components/consultar-citas/consultar-citas.component.ts:42-48 | one record per kept request, in order. Each is that request unchanged plus the two looked-up names |
| ConsultarCitas.DetailNames | src/app/components/consultar-citas/consultar-citas.component.ts:39-47 | the analysis name shown is the last catalogue entry's name for that id, or 'No disponible' when that name is empty |
| ConsultarCitas.MissingNameUnavailable | src/app/components/consultar-citas/consultar-citas.component.ts:40-47 | a laboratory id no catalogue entry has shows 'No disponible' |
| Models.HasId | src/app/components/consultar-citas/consultar-citas.component.ts:27 | a user without an id and one whose id is 0 both fail the guard. A user passing it has an id. Conversely, `AgendarCita.SelectedIdsAreBooked` and `ConsultarCitas.CancelRefetchesForSameUser` show that any user with a non-zero id passes |
| ConsultarCitas.OnInit | src/app/components/consultar-citas/consultar-citas.component.ts:25-31 | a missing user or id sets the error, turns loading off and fetches nothing. Otherwise it fetches for that id |
| ConsultarCitas.OnLoaded | src/app/components/consultar-citas/consultar-citas.component.ts:33-59 | loading is off in both branches. Any failed list gives the single load error. On success the list holds only fetched requests of the user, is no longer than the fetch, and keeps the earlier error text |
| ConsultarCitas.ListedAreOwnInOrder | src/app/components/consultar-citas/consultar-citas.component.ts:42-48 | dropping the names from the listed records gives exactly the filtered requests, in order |
| ConsultarCitas.CancelarCita | src/app/components/consultar-citas/consultar-citas.component.ts:62-65 | a delete of that id is requested exactly when the user confirmed |
| ConsultarCitas.OnCancelReply | src/app/components/consultar-citas/consultar-citas.component.ts:67-76 | a failed delete changes nothing and refetches nothing. A successful one runs the start-up guard again. Any refetch is for the id of the user logged in now |
| ConsultarCitas.CancelRefetchesForSameUser | src/app/components/consultar-citas/consultar-citas.component.ts:62-76 | a confirmed, accepted cancel refetches for the same user with the list state unchanged. A declined dialog sends nothing and a failed delete refetches nothing |
| ConsultarCitas.CancelledNotListed | src/app/components/consultar-citas/consultar-citas.component.ts:33-70 | when the refetched requests no longer include the cancelled id, no listed appointment has it |

## Left out

- HTTP wrapper services (`citas.service.ts`, `examen.service.ts`, `catalogos.service.ts`) and `AuthService.register`: they only build a URL and pick a verb. Their replies are inputs here.
- `auth.interceptor.ts`, `app.routes.ts` and the route guard: header and routing plumbing.
- `home-paciente` and `home-trabajador`: navigation stubs and a locale- and time-dependent clock on an uncancelled interval. The catalogue-administration screens are not part of this model.
- Angular's built-in validators (`required`, `email`, `minLength`, `pattern`): their verdict is a boolean input. `patchValue` and `setValue` on the whole group run the group validator once after all controls change; only edits of one control at a time are modelled. The exceptions are the recovery form's two `required` checks (a non-empty test) and the RUT pattern, which is stated as a predicate to relate it to `formatRut`.
- RxJS timing: each callback is a separate transition. The second subscription to the list observable, made by the page template, is not modelled: `ListState.citas` stands for the list that observable emits. A failed refetch after a cancel keeps the previous list there, a simplification of the template dropping the failed observable's value. `console` output, `markAsTouched`, `alert` and the `setTimeout` delay are not modelled. A scheduled redirect is returned as a value. `confirm()` is a boolean input.
- The constructor's `error` handler in the session store: `loadCurrentUser` catches every error, so that handler can never run.
- The `sessionStorage` key `currentUser` that `logout()` removes: nothing ever writes it.
- The recovery component's own `getPasswordErrorMessage()` wrapper: its missing-control branch cannot happen, and otherwise it calls the modelled formatter.
- JsNumber.ToNumber: strings other than digit runs become NaN, but `Number` also accepts surrounding whitespace, a sign, fractions, exponents, hex and `Infinity`. Ids picked from the catalogues are digit strings. The model's value of a digit string is exact, while `Number` rounds values above 2^53 to the nearest double, so ids that large would convert differently.
- String lengths are counted in Dafny characters. JavaScript counts UTF-16 code units, which differs only for characters outside the Basic Multilingual Plane.
- A control value of `null` or `undefined` for the password rule is represented as the empty string, which the rule treats the same way.
- `goToLogin`, `goToRegister` and `goToForgotPassword`: unconditional navigation with no state.
