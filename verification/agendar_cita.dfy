/** The booking screen (src/app/components/agendar-cita/agendar-cita.component.ts). */
module AgendarCita {
  import opened Common
  import opened Models
  import JsNumber

  /** The booking form's control values. `reset()` clears them all (to
      `null`, written here as `""`). */
  datatype CitaForm = CitaForm(analisisId: string, laboratorioId: string, fecha: string, hora: string)

  const EmptyForm := CitaForm("", "", "", "")

  datatype BookingState = BookingState(loading: bool, successMessage: string, errorMessage: string, form: CitaForm)

  /** The request body of `createSolicitud`. The ids are JavaScript
      numbers, so they may be `NaN`. */
  datatype NuevaSolicitud = NuevaSolicitud(
    usuarioId: int,
    analisisId: JsNumber.Number,
    laboratorioId: JsNumber.Number,
    fecha: string,
    hora: string)

  const IncompleteFormMessage: string := "Por favor, completa todos los campos."
  const NoSessionMessage: string := "No se pudo obtener la información del usuario. Por favor, inicia sesión de nuevo."
  const BookedMessage: string := "¡Cita agendada con éxito!"
  const BookingFailedMessage: string := "Ocurrió un error al agendar la cita."

  /** The request built for a user from the form. */
  function RequestFor(userId: int, f: CitaForm): (q: NuevaSolicitud)
    ensures q.usuarioId == userId && q.fecha == f.fecha && q.hora == f.hora
    ensures q.analisisId == JsNumber.ToNumber(f.analisisId)
    ensures q.laboratorioId == JsNumber.ToNumber(f.laboratorioId)
  {
    NuevaSolicitud(userId, JsNumber.ToNumber(f.analisisId), JsNumber.ToNumber(f.laboratorioId), f.fecha, f.hora)
  }

  /** `onSubmit()` up to the call of `createSolicitud`: an invalid form and
      a missing user (or one without an id) each stop it with a message;
      only then are the messages cleared and loading started. */
  function OnSubmit(s: BookingState, formValid: bool, currentUser: Option<Usuario>): (r: (BookingState, Option<NuevaSolicitud>))
    ensures !formValid ==> r == (s.(errorMessage := IncompleteFormMessage), None)
    ensures formValid && (currentUser.None? || !HasId(currentUser.value)) ==>
              r == (s.(errorMessage := NoSessionMessage), None)
    ensures r.1.Some? <==> formValid && currentUser.Some? && HasId(currentUser.value)
    ensures r.1.Some? ==>
              r.0 == s.(loading := true, errorMessage := "", successMessage := "")
              && r.1.value.usuarioId == currentUser.value.id.value
              && r.1.value == RequestFor(currentUser.value.id.value, s.form)
  {
    if !formValid then (s.(errorMessage := IncompleteFormMessage), None)
    else if currentUser.None? || !HasId(currentUser.value) then (s.(errorMessage := NoSessionMessage), None)
    else
      (s.(loading := true, errorMessage := "", successMessage := ""),
       Some(RequestFor(currentUser.value.id.value, s.form)))
  }

  /** The `next` callback: success message, form emptied. */
  function OnCreated(s: BookingState): (r: BookingState)
    ensures !r.loading && r.successMessage == BookedMessage && r.form == EmptyForm
    ensures r.errorMessage == s.errorMessage
  {
    s.(loading := false, successMessage := BookedMessage, form := EmptyForm)
  }

  /** The `error` callback; `serverError` is `err.error?.error`. The form
      keeps its values so that the user can retry. */
  function OnCreateFailed(s: BookingState, serverError: Option<string>): (r: BookingState)
    ensures !r.loading && r.form == s.form && r.successMessage == s.successMessage
    ensures serverError.Some? && serverError.value != "" ==> r.errorMessage == serverError.value
    ensures serverError.None? || serverError.value == "" ==> r.errorMessage == BookingFailedMessage
  {
    s.(loading := false, errorMessage := OptOrElse(serverError, BookingFailedMessage))
  }

  /** Picking catalogue entries by id in the form books exactly those
      ids for the logged-in user. */
  lemma SelectedIdsAreBooked(s: BookingState, u: Usuario, analisisId: nat, laboratorioId: nat)
    requires u.id.Some? && u.id.value != 0
    requires s.form.analisisId == JsNumber.ToDecimal(analisisId)
    requires s.form.laboratorioId == JsNumber.ToDecimal(laboratorioId)
    ensures OnSubmit(s, true, Some(u)).1
              == Some(NuevaSolicitud(u.id.value, JsNumber.Num(analisisId), JsNumber.Num(laboratorioId), s.form.fecha, s.form.hora))
  {
    JsNumber.ToNumberOfDecimal(analisisId);
    JsNumber.ToNumberOfDecimal(laboratorioId);
  }

  /** A blocked submit never starts loading and never touches the
      success message or the form. */
  lemma BlockedSubmitKeepsState(s: BookingState, formValid: bool, currentUser: Option<Usuario>)
    requires OnSubmit(s, formValid, currentUser).1.None?
    ensures var s' := OnSubmit(s, formValid, currentUser).0;
      s'.loading == s.loading && s'.successMessage == s.successMessage && s'.form == s.form && s'.errorMessage != ""
  {
  }
}
