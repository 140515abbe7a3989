/** The records exchanged with the backend (src/app/models). */
module Models {
  import opened Common

  /** The `rol` field of a user as it arrives: the interface types it as a
      number, while `AuthService.getRole` reads it as an object with `id`
      and `nombre`. Both shapes are kept so that either reading can be
      modelled. */
  datatype RolField = RolNumber(n: int) | RolRecord(id: int, nombre: string)

  /** A user as returned by `GET /usuarios` and `GET /usuarios/me`; only
      the fields the modelled code reads are kept. */
  datatype Usuario = Usuario(
    id: Option<int>,
    nombre: string,
    apellido: string,
    email: string,
    rol: RolField)

  /** `id || ...` in the components: a missing id and the id 0 are both
      falsy. */
  function HasId(u: Usuario): (b: bool)
    ensures b ==> u.id.Some?
    ensures u.id == None || u.id == Some(0) ==> !b
  {
    u.id.Some? && u.id.value != 0
  }

  datatype Analisis = Analisis(id: int, nombre: string, descripcion: string)

  datatype Laboratorio = Laboratorio(id: int, nombre: string, direccion: string)

  /** An appointment request (`SolicitudAnalisis`). */
  datatype Solicitud = Solicitud(
    id: Option<int>,
    usuarioId: int,
    analisisId: int,
    laboratorioId: int,
    fecha: string,
    hora: string)
}
