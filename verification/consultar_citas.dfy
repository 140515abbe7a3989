/** The appointment list
    (src/app/components/consultar-citas/consultar-citas.component.ts): the
    requests of the logged-in user, with the names of their analysis and
    laboratory looked up in the two catalogues. */
module ConsultarCitas {
  import opened Common
  import opened Models

  /** A request with the display names attached (`SolicitudAnalisisDetallada`). */
  datatype CitaDetallada = CitaDetallada(solicitud: Solicitud, nombreAnalisis: string, nombreLaboratorio: string)

  /** `loading`, `error`, and in `citas` the list that `citas$` emits.
      The component's own subscription discards that list; the page
      template shows it through a second subscription. */
  datatype ListState = ListState(loading: bool, error: string, citas: seq<CitaDetallada>)

  const Initial := ListState(true, "", [])

  const NoUserMessage: string := "No se pudo obtener la información del usuario."
  const LoadFailedMessage: string := "Error al cargar las citas."
  const Unavailable: string := "No disponible"

  /** `new Map(entries)`: entries are added in order, so a later entry
      with the same id replaces an earlier one. */
  function NameMap(entries: seq<(int, string)>): (m: map<int, string>)
    ensures forall id :: id in m <==> exists i :: 0 <= i < |entries| && entries[i].0 == id
  {
    if |entries| == 0 then map[]
    else
      var last := entries[|entries| - 1];
      var m := NameMap(entries[..|entries| - 1])[last.0 := last.1];
      assert forall id :: id in m <==> exists i :: 0 <= i < |entries| && entries[i].0 == id by {
        forall id | id in m
          ensures exists i :: 0 <= i < |entries| && entries[i].0 == id
        {
          if id != last.0 {
            var i :| 0 <= i < |entries| - 1 && entries[..|entries| - 1][i].0 == id;
            assert entries[i].0 == id;
          }
        }
      }
      m
  }

  /** The id's name comes from the last entry that lists it. */
  lemma {:induction false} LaterEntryWins(entries: seq<(int, string)>, i: nat)
    requires i < |entries|
    requires forall j :: i < j < |entries| ==> entries[j].0 != entries[i].0
    ensures entries[i].0 in NameMap(entries) && NameMap(entries)[entries[i].0] == entries[i].1
    decreases |entries|
  {
    if i < |entries| - 1 {
      var prefix := entries[..|entries| - 1];
      assert forall j :: i < j < |prefix| ==> prefix[j].0 != prefix[i].0;
      LaterEntryWins(prefix, i);
    }
  }

  /** `catalogue.map(x => [x.id, x.nombre])`, with `entry` picking the pair. */
  function Entries<T>(catalogue: seq<T>, entry: T -> (int, string)): (e: seq<(int, string)>)
    ensures |e| == |catalogue| && forall i :: 0 <= i < |catalogue| ==> e[i] == entry(catalogue[i])
  {
    seq(|catalogue|, i requires 0 <= i < |catalogue| => entry(catalogue[i]))
  }

  /** A catalogue entry keyed by its id and labelled with its name. */
  function AnalisisEntry(a: Analisis): (e: (int, string))
    ensures e.0 == a.id && e.1 == a.nombre
  {
    (a.id, a.nombre)
  }

  function LaboratorioEntry(l: Laboratorio): (e: (int, string))
    ensures e.0 == l.id && e.1 == l.nombre
  {
    (l.id, l.nombre)
  }

  /** The two name maps have exactly the catalogues' ids as keys. */
  lemma CatalogueKeys(analisis: seq<Analisis>, laboratorios: seq<Laboratorio>, id: int)
    ensures (id in NameMap(Entries(analisis, AnalisisEntry)))
      <==> (exists i :: 0 <= i < |analisis| && analisis[i].id == id)
    ensures (id in NameMap(Entries(laboratorios, LaboratorioEntry)))
      <==> (exists i :: 0 <= i < |laboratorios| && laboratorios[i].id == id)
  {
    var ea := Entries(analisis, AnalisisEntry);
    var el := Entries(laboratorios, LaboratorioEntry);
    assert forall i :: 0 <= i < |analisis| ==> ea[i].0 == analisis[i].id;
    assert forall i :: 0 <= i < |laboratorios| ==> el[i].0 == laboratorios[i].id;
  }

  /** `names.get(id) || 'No disponible'`: a missing id and an empty name
      both show the fallback. */
  function NameOrUnavailable(names: map<int, string>, id: int): (n: string)
    ensures id in names && names[id] != "" ==> n == names[id]
    ensures id !in names || names[id] == "" ==> n == Unavailable
  {
    if id in names then OrElse(names[id], Unavailable) else Unavailable
  }

  /** `solicitudes.filter(s => s.usuarioId === userId)`. */
  function OwnRequests(ss: seq<Solicitud>, userId: int): (r: seq<Solicitud>)
    ensures |r| <= |ss|
    ensures forall x :: x in r <==> x in ss && x.usuarioId == userId
  {
    if |ss| == 0 then []
    else
      var init := ss[..|ss| - 1];
      var last := ss[|ss| - 1];
      assert ss == init + [last];
      OwnRequests(init, userId) + (if last.usuarioId == userId then [last] else [])
  }

  /** Filtering distributes over concatenation, so the kept requests keep
      their relative order. */
  lemma {:induction false} OwnRequestsAppend(a: seq<Solicitud>, b: seq<Solicitud>, userId: int)
    ensures OwnRequests(a + b, userId) == OwnRequests(a, userId) + OwnRequests(b, userId)
    decreases |b|
  {
    if |b| == 0 {
      assert a + b == a;
    } else {
      var init := b[..|b| - 1];
      assert (a + b)[..|a + b| - 1] == a + init;
      OwnRequestsAppend(a, init, userId);
    }
  }

  /** A single request is kept exactly when it belongs to the user. */
  lemma OwnRequestsSingle(x: Solicitud, userId: int)
    ensures OwnRequests([x], userId) == (if x.usuarioId == userId then [x] else [])
  {
    assert [x][..0] == [];
  }

  /** Every request either belongs to the user and is kept, in place, or
      is dropped; a list of the user's own requests comes back whole. */
  lemma {:induction false} OwnRequestsKeepsOwnList(ss: seq<Solicitud>, userId: int)
    requires forall i :: 0 <= i < |ss| ==> ss[i].usuarioId == userId
    ensures OwnRequests(ss, userId) == ss
    decreases |ss|
  {
    if |ss| > 0 {
      OwnRequestsKeepsOwnList(ss[..|ss| - 1], userId);
      assert ss[..|ss| - 1] + [ss[|ss| - 1]] == ss;
    }
  }

  /** Filtering twice is filtering once. */
  lemma OwnRequestsIdempotent(ss: seq<Solicitud>, userId: int)
    ensures OwnRequests(OwnRequests(ss, userId), userId) == OwnRequests(ss, userId)
  {
    var r := OwnRequests(ss, userId);
    assert forall i :: 0 <= i < |r| ==> r[i] in r;
    OwnRequestsKeepsOwnList(r, userId);
  }

  /** The body of the `map` operator: filter, then attach both names. */
  function Detail(ss: seq<Solicitud>, analisis: seq<Analisis>, laboratorios: seq<Laboratorio>, userId: int)
    : (r: seq<CitaDetallada>)
    ensures |r| == |OwnRequests(ss, userId)|
    ensures forall i :: 0 <= i < |r| ==> r[i].solicitud == OwnRequests(ss, userId)[i]
    ensures forall i :: 0 <= i < |r| ==>
              r[i].nombreAnalisis == NameOrUnavailable(NameMap(Entries(analisis, AnalisisEntry)), r[i].solicitud.analisisId)
              && r[i].nombreLaboratorio == NameOrUnavailable(NameMap(Entries(laboratorios, LaboratorioEntry)), r[i].solicitud.laboratorioId)
  {
    var own := OwnRequests(ss, userId);
    var aNames := NameMap(Entries(analisis, AnalisisEntry));
    var lNames := NameMap(Entries(laboratorios, LaboratorioEntry));
    seq(|own|, i requires 0 <= i < |own| =>
      CitaDetallada(own[i], NameOrUnavailable(aNames, own[i].analisisId), NameOrUnavailable(lNames, own[i].laboratorioId)))
  }

  /** The displayed analysis name is the catalogue's last name for that
      id when it is non-empty; "No disponible" when no entry has the id. */
  lemma DetailNames(ss: seq<Solicitud>, analisis: seq<Analisis>, laboratorios: seq<Laboratorio>, userId: int, k: nat, i: nat)
    requires k < |Detail(ss, analisis, laboratorios, userId)|
    requires i < |analisis|
    requires analisis[i].id == Detail(ss, analisis, laboratorios, userId)[k].solicitud.analisisId
    requires forall j :: i < j < |analisis| ==> analisis[j].id != analisis[i].id
    ensures Detail(ss, analisis, laboratorios, userId)[k].nombreAnalisis
              == (if analisis[i].nombre != "" then analisis[i].nombre else Unavailable)
  {
    var e := Entries(analisis, AnalisisEntry);
    assert forall j :: i < j < |e| ==> e[j].0 != e[i].0;
    LaterEntryWins(e, i);
  }

  lemma MissingNameUnavailable(ss: seq<Solicitud>, analisis: seq<Analisis>, laboratorios: seq<Laboratorio>, userId: int, k: nat)
    requires k < |Detail(ss, analisis, laboratorios, userId)|
    requires forall j :: 0 <= j < |laboratorios| ==>
               laboratorios[j].id != Detail(ss, analisis, laboratorios, userId)[k].solicitud.laboratorioId
    ensures Detail(ss, analisis, laboratorios, userId)[k].nombreLaboratorio == Unavailable
  {
  }

  /** `ngOnInit()` up to the three requests: without a user (or one
      without an id) it stops with a message and fetches nothing;
      otherwise the requests are sent for that id. */
  function OnInit(s: ListState, currentUser: Option<Usuario>): (r: (ListState, Option<int>))
    ensures currentUser.None? || !HasId(currentUser.value) ==>
              r == (s.(error := NoUserMessage, loading := false), None)
    ensures currentUser.Some? && HasId(currentUser.value) ==>
              r == (s, Some(currentUser.value.id.value))
  {
    if currentUser.None? || !HasId(currentUser.value) then (s.(error := NoUserMessage, loading := false), None)
    else (s, Some(currentUser.value.id.value))
  }

  /** `forkJoin` of the three lists, then the component's callbacks: any
      single failure fails the whole join. A success does not clear an
      earlier error message. */
  function OnLoaded(s: ListState, userId: int, solicitudes: Reply<seq<Solicitud>>,
                    analisis: Reply<seq<Analisis>>, laboratorios: Reply<seq<Laboratorio>>): (r: ListState)
    ensures !r.loading
    ensures solicitudes.Failed? || analisis.Failed? || laboratorios.Failed? ==>
              r == s.(loading := false, error := LoadFailedMessage)
    ensures solicitudes.Ok? && analisis.Ok? && laboratorios.Ok? ==>
              r.error == s.error
              && |r.citas| <= |solicitudes.value|
              && forall i :: 0 <= i < |r.citas| ==>
                   r.citas[i].solicitud in solicitudes.value && r.citas[i].solicitud.usuarioId == userId
  {
    if solicitudes.Ok? && analisis.Ok? && laboratorios.Ok? then
      var citas := Detail(solicitudes.value, analisis.value, laboratorios.value, userId);
      assert forall i :: 0 <= i < |citas| ==> citas[i].solicitud in OwnRequests(solicitudes.value, userId);
      s.(loading := false, citas := citas)
    else s.(loading := false, error := LoadFailedMessage)
  }

  /** The list shows exactly the user's requests, each once per
      occurrence and in fetched order: removing the names gives the
      filtered list back. */
  lemma ListedAreOwnInOrder(s: ListState, userId: int, ss: seq<Solicitud>, a: seq<Analisis>, l: seq<Laboratorio>)
    ensures var r := OnLoaded(s, userId, Ok(ss), Ok(a), Ok(l));
      seq(|r.citas|, i requires 0 <= i < |r.citas| => r.citas[i].solicitud) == OwnRequests(ss, userId)
  {
  }

  /** `cancelarCita(id)` up to the call of `deleteSolicitud`: the id is
      sent exactly when the user confirms the dialog. */
  function CancelarCita(confirmed: bool, id: int): (r: Option<int>)
    ensures r.Some? <==> confirmed
    ensures r.Some? ==> r.value == id
  {
    if confirmed then Some(id) else None
  }

  /** The callbacks of `deleteSolicitud(id)`: a success runs `ngOnInit()`
      again for whoever is logged in now; a failure changes nothing. The
      alerts both show are not modelled. */
  function OnCancelReply(s: ListState, currentUser: Option<Usuario>, reply: Reply<()>): (r: (ListState, Option<int>))
    ensures reply.Failed? ==> r == (s, None)
    ensures reply.Ok? ==> r == OnInit(s, currentUser)
    ensures r.1.Some? ==> reply.Ok? && currentUser.Some? && currentUser.value.id == Some(r.1.value)
  {
    match reply
    case Ok(_) => OnInit(s, currentUser)
    case Failed => (s, None)
  }

  /** A confirmed cancel that the server accepts refetches the lists for
      the same user; a declined dialog or a failed delete refetches
      nothing and leaves the list as it was. */
  lemma CancelRefetchesForSameUser(s: ListState, u: Usuario, id: int, confirmed: bool, reply: Reply<()>)
    requires u.id.Some? && u.id.value != 0
    ensures CancelarCita(confirmed, id).Some? && reply.Ok? ==>
              OnCancelReply(s, Some(u), reply) == (s, Some(u.id.value))
    ensures reply.Failed? ==> OnCancelReply(s, Some(u), reply) == (s, None)
    ensures !confirmed ==> CancelarCita(confirmed, id).None?
  {
  }

  /** After a cancel is accepted and the server no longer returns the
      cancelled request, the reloaded list does not show it. */
  lemma CancelledNotListed(s: ListState, userId: int, ss: seq<Solicitud>,
                           analisis: seq<Analisis>, laboratorios: seq<Laboratorio>, id: int)
    requires forall i :: 0 <= i < |ss| ==> ss[i].id != Some(id)
    ensures var r := OnLoaded(s, userId, Ok(ss), Ok(analisis), Ok(laboratorios));
      forall i :: 0 <= i < |r.citas| ==> r.citas[i].solicitud.id != Some(id)
  {
  }
}
