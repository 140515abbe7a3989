/** The registration screen (src/app/components/registro/registro.component.ts):
    the password-match group validator, the submit guard and payload, the
    register callbacks and the RUT formatter. */
module Registro {
  import opened Common
  import PasswordConfirmation

  /** The values of the registration form's controls. */
  datatype RegistroForm = RegistroForm(
    nombre: string,
    apellido: string,
    email: string,
    password: string,
    confirmPassword: string,
    telefono: string,
    rut: string,
    fechaNacimiento: string,
    genero: string,
    direccion: string,
    rol: int)

  /** The body of `POST /usuarios`: the form without `confirmPassword`,
      plus `activo`. */
  datatype NuevoUsuario = NuevoUsuario(
    nombre: string,
    apellido: string,
    email: string,
    password: string,
    telefono: string,
    rut: string,
    fechaNacimiento: string,
    genero: string,
    direccion: string,
    rol: int,
    activo: bool)

  datatype RegistroState = RegistroState(loading: bool, errorMessage: string, successMessage: string)

  const Initial := RegistroState(false, "", "")

  /** The whole form is valid when every control's own built-in
      validators pass (`fieldsValid`), the confirmation control carries no
      `passwordMismatch` mark left by an earlier run of the group validator
      (`confirmMarked`, maintained by `PasswordConfirmation.EditPassword`
      and `EditConfirm`), and the group validator finds no mismatch now. */
  function FormValid(fieldsValid: bool, confirmMarked: bool, form: RegistroForm): (ok: bool)
    ensures ok ==> fieldsValid && !confirmMarked && form.password == form.confirmPassword
    ensures !fieldsValid || confirmMarked || form.password != form.confirmPassword ==> !ok
  {
    fieldsValid && PasswordConfirmation.PairValid(
      PasswordConfirmation.PasswordPair(form.password, form.confirmPassword, confirmMarked))
  }

  /** The request body built from the form. */
  function Payload(form: RegistroForm): (u: NuevoUsuario)
    ensures u.activo
  {
    NuevoUsuario(form.nombre, form.apellido, form.email, form.password, form.telefono,
                 form.rut, form.fechaNacimiento, form.genero, form.direccion, form.rol, true)
  }

  /** Puts the omitted confirmation back next to a payload. */
  function FormOf(u: NuevoUsuario, confirm: string): RegistroForm {
    RegistroForm(u.nombre, u.apellido, u.email, u.password, confirm, u.telefono,
                 u.rut, u.fechaNacimiento, u.genero, u.direccion, u.rol)
  }

  /** The payload carries every field of the form except the
      confirmation: adding the confirmation back restores the form. */
  lemma PayloadKeepsEveryOtherField(form: RegistroForm)
    ensures FormOf(Payload(form), form.confirmPassword) == form
  {
  }

  /** The state right after `onSubmit()` and the register request it
      sends, if any. */
  datatype Submission = Submission(state: RegistroState, request: Option<NuevoUsuario>)

  /** `onSubmit()` up to the HTTP call. Marking the controls touched only
      affects how the page is drawn and is not modelled. */
  function OnSubmit(s: RegistroState, fieldsValid: bool, confirmMarked: bool, form: RegistroForm): (r: Submission)
    ensures !FormValid(fieldsValid, confirmMarked, form) ==> r == Submission(s, None)
    ensures FormValid(fieldsValid, confirmMarked, form) ==>
              r.state == RegistroState(true, "", "") && r.request == Some(Payload(form))
  {
    if !FormValid(fieldsValid, confirmMarked, form) then Submission(s, None)
    else Submission(RegistroState(true, "", ""), Some(Payload(form)))
  }

  /** Whatever is sent was confirmed: its password equals the
      confirmation the user typed, and it is marked active. */
  lemma SentPasswordWasConfirmed(s: RegistroState, fieldsValid: bool, confirmMarked: bool, form: RegistroForm)
    requires OnSubmit(s, fieldsValid, confirmMarked, form).request.Some?
    ensures OnSubmit(s, fieldsValid, confirmMarked, form).request.value.password == form.confirmPassword
    ensures !confirmMarked
    ensures OnSubmit(s, fieldsValid, confirmMarked, form).request.value.activo
  {
  }

  /** Scenario: the confirmation is typed before an equal password. Every
      control's own validators pass and the two values agree, yet the mark
      left while the password was still empty blocks the registration
      until the confirmation is typed again. */
  lemma ConfirmTypedFirstBlocksRegistration(s: RegistroState, form: RegistroForm)
    requires form.password == form.confirmPassword != ""
    ensures var p := PasswordConfirmation.EditPassword(
              PasswordConfirmation.EditConfirm(PasswordConfirmation.EmptyPair, form.confirmPassword), form.password);
      && OnSubmit(s, true, p.confirmMarked, form).request.None?
      && OnSubmit(s, true, PasswordConfirmation.EditConfirm(p, form.confirmPassword).confirmMarked, form).request.Some?
  {
  }

  const RegisteredMessage: string := "Usuario registrado exitosamente"
  const RegisterErrorMessage: string := "Error al registrar usuario. Por favor, intenta nuevamente."
  const RedirectDelayMs: nat := 2000

  /** The `next` callback of the register call: the success message and
      a redirect to the login page two seconds later. */
  function OnRegistered(s: RegistroState): (r: (RegistroState, Redirect))
    ensures !r.0.loading && r.0.successMessage == RegisteredMessage
    ensures r.0.errorMessage == s.errorMessage
    ensures r.1 == Redirect(LoginPage, RedirectDelayMs)
  {
    (s.(loading := false, successMessage := RegisteredMessage), Redirect(LoginPage, RedirectDelayMs))
  }

  /** The `error` callback: one generic message whatever the failure. */
  function OnRegisterFailed(s: RegistroState): (r: RegistroState)
    ensures !r.loading && r.errorMessage == RegisterErrorMessage
    ensures r.successMessage == s.successMessage
  {
    s.(loading := false, errorMessage := RegisterErrorMessage)
  }

  /** A submitted form ends with loading off whichever callback runs. */
  lemma LoadingEndsAfterEitherCallback(s: RegistroState, fieldsValid: bool, confirmMarked: bool, form: RegistroForm)
    requires FormValid(fieldsValid, confirmMarked, form)
    ensures OnSubmit(s, fieldsValid, confirmMarked, form).state.loading
    ensures !OnRegistered(OnSubmit(s, fieldsValid, confirmMarked, form).state).0.loading
    ensures !OnRegisterFailed(OnSubmit(s, fieldsValid, confirmMarked, form).state).loading
  {
  }

  // ---------------------------------------------------------------------
  // RUT formatting

  predicate RutChar(c: char) { IsDigit(c) || c == 'k' || c == 'K' }

  /** `value.replace(/[^0-9kK]/g, '')`. */
  function Clean(s: string): (c: string)
    ensures |c| <= |s|
    ensures forall i :: 0 <= i < |c| ==> RutChar(c[i])
  {
    if |s| == 0 then ""
    else (if RutChar(s[0]) then [s[0]] else []) + Clean(s[1..])
  }

  /** `formatRut`: keep the RUT characters, then put a dash before the
      last one when there are at least two. */
  function FormatRut(s: string): (r: string)
    ensures |r| <= |s| + 1
    ensures forall i :: 0 <= i < |r| ==> RutChar(r[i]) || r[i] == '-'
  {
    var c := Clean(s);
    if |c| > 1 then c[..|c| - 1] + "-" + [c[|c| - 1]] else c
  }

  /** On one character, cleaning keeps it exactly when it is a RUT
      character. With `CleanAppend` this pins `Clean` down on every
      string: it is the filter keeping the RUT characters in order. */
  lemma CleanSingle(c: char)
    ensures RutChar(c) ==> Clean([c]) == [c]
    ensures !RutChar(c) ==> Clean([c]) == []
  {
  }

  /** Cleaning changes nothing exactly when there is nothing to drop. */
  lemma CleanFixedIff(s: string)
    ensures Clean(s) == s <==> forall i :: 0 <= i < |s| ==> RutChar(s[i])
  {
    if forall i :: 0 <= i < |s| ==> RutChar(s[i]) {
      CleanKeepsRut(s);
    }
  }

  /** A filter keeps its dropped characters out: a string with no RUT
      character cleans to nothing. */
  lemma {:induction false} CleanDropsOthers(s: string)
    requires forall i :: 0 <= i < |s| ==> !RutChar(s[i])
    ensures Clean(s) == ""
    decreases |s|
  {
    if |s| > 0 {
      CleanDropsOthers(s[1..]);
    }
  }

  lemma {:induction false} CleanAppend(a: string, b: string)
    ensures Clean(a + b) == Clean(a) + Clean(b)
    decreases |a|
  {
    if |a| == 0 {
      assert a + b == b;
    } else {
      assert (a + b)[1..] == a[1..] + b;
      CleanAppend(a[1..], b);
    }
  }

  /** Cleaning keeps a string made only of RUT characters. */
  lemma {:induction false} CleanKeepsRut(c: string)
    requires forall i :: 0 <= i < |c| ==> RutChar(c[i])
    ensures Clean(c) == c
    decreases |c|
  {
    if |c| > 0 {
      CleanKeepsRut(c[1..]);
      assert [c[0]] + c[1..] == c;
    }
  }

  /** Cleaning is the identity on its own output. */
  lemma CleanIdempotent(s: string)
    ensures Clean(Clean(s)) == Clean(s)
  {
    CleanKeepsRut(Clean(s));
  }

  /** The dash is the only character formatting adds: cleaning the
      formatted value gives back the cleaned input. */
  lemma FormatRutKeepsCharacters(s: string)
    ensures Clean(FormatRut(s)) == Clean(s)
  {
    var c := Clean(s);
    CleanIdempotent(s);
    if |c| > 1 {
      var head := c[..|c| - 1];
      var last := [c[|c| - 1]];
      CleanAppend(head + "-", last);
      CleanAppend(head, "-");
      CleanKeepsRut(head);
      CleanKeepsRut(last);
      assert Clean("-") == "";
      assert head + last == c;
    }
  }

  /** The output has only digits, `k`, `K` and dashes, at most one dash,
      and it is the cleaned input with a dash before its last character
      when that has at least two characters. */
  lemma FormatRutShape(s: string)
    ensures var c := Clean(s); var r := FormatRut(s);
      && (forall i :: 0 <= i < |r| ==> RutChar(r[i]) || r[i] == '-')
      && (forall i, j :: 0 <= i < j < |r| && r[i] == '-' ==> r[j] != '-')
      && (|c| > 1 ==> |r| == |c| + 1 && r[|r| - 2] == '-' && r[..|r| - 2] == c[..|c| - 1] && r[|r| - 1] == c[|c| - 1])
      && (|c| <= 1 ==> r == c)
  {
  }

  /** Formatting twice is the same as formatting once, so re-running the
      handler on its own output changes nothing. */
  lemma FormatRutIdempotent(s: string)
    ensures FormatRut(FormatRut(s)) == FormatRut(s)
  {
    FormatRutKeepsCharacters(s);
  }

  /** The form's `rut` pattern, `^[0-9]+-[0-9kK]{1}$`. */
  predicate MatchesRutPattern(r: string) {
    && |r| >= 3
    && r[|r| - 2] == '-'
    && (forall i :: 0 <= i < |r| - 2 ==> IsDigit(r[i]))
    && RutChar(r[|r| - 1])
  }

  /** A formatted value passes the form's pattern exactly when the
      cleaned input has at least two characters and a `k` or `K` can only
      be its last one. */
  lemma FormatRutMeetsPatternIff(s: string)
    ensures var c := Clean(s);
      MatchesRutPattern(FormatRut(s)) <==> |c| >= 2 && forall i :: 0 <= i < |c| - 1 ==> IsDigit(c[i])
  {
    var c := Clean(s);
    var r := FormatRut(s);
    if |c| >= 2 {
      assert forall i :: 0 <= i < |c| - 1 ==> r[i] == c[i];
    } else {
      assert r == c;
    }
  }

  lemma FormatRutExample()
    ensures FormatRut("123456789") == "12345678-9"
  {
    var c := "123456789";
    assert forall i :: 0 <= i < |c| ==> IsDigit(c[i]);
    CleanKeepsRut(c);
    assert Clean(c) == c;
    assert c[..8] == "12345678";
    assert c[8] == '9';
    assert "12345678" + "-" + ['9'] == "12345678-9";
  }
}
