/** Booking an appointment: the checks `agendarCita` runs before posting,
    the message it shows for each answer, the server-message fallback chain
    of `leerMensajeServidor`, and the quick-booking modal the weekly agenda
    opens from a free slot. */
module Booking {
  import opened Wrappers
  import opened Text
  import opened Clock
  import opened Calendar
  import opened Slots

  /** The six inputs of the booking form, as the `<select>` and `<input>`
      elements hold them: strings, "" when nothing is chosen. */
  datatype CitaForm = CitaForm(clienteId: string, barberoId: string, servicioId: string,
                               fecha: string, horaInicio: string, horaFin: string)

  const EmptyForm: CitaForm := CitaForm("", "", "", "", "", "")

  /** Choosing a start hour also sets the end hour one hour later. */
  function SetHoraInicio(f: CitaForm, hi: string): (g: CitaForm)
    ensures g.horaInicio == hi && g.horaFin == AddMinutesToHHMM(hi, 60)
    ensures g.clienteId == f.clienteId && g.barberoId == f.barberoId
            && g.servicioId == f.servicioId && g.fecha == f.fecha
  {
    f.(horaInicio := hi, horaFin := AddMinutesToHHMM(hi, 60))
  }

  /** The body of the POST: the three ids through `Number` (None is NaN) and
      the two local date-times. */
  datatype CitaRequest = CitaRequest(clienteId: Option<nat>, barberoId: Option<nat>, servicioId: Option<nat>,
                                     fechaHoraInicio: string, fechaHoraFin: string)

  /** Why the form refused to post, in the order the checks run. */
  datatype Rejection = MissingField | BadDateTime | EndNotAfterStart | TooShort

  /** The shortest appointment the form accepts: 60 minutes, in ms. */
  const MinDurationMs: nat := 60 * MsPerMinute

  /** Every field is non-empty (an empty string is falsy). */
  predicate AllFilled(f: CitaForm)
  {
    f.clienteId != [] && f.barberoId != [] && f.servicioId != []
    && f.fecha != [] && f.horaInicio != [] && f.horaFin != []
  }

  /** `${fecha}T${hora}:00`, the local date-time posted for one end. */
  function LocalDateTimeString(fecha: string, hora: string): string
  {
    fecha + "T" + hora + ":00"
  }

  /** `agendarCita` before the fetch: all six fields are required; both
      date-times must parse; the end must lie strictly after the start; and
      the two must be at least 60 minutes apart. Only a form that passes all
      four checks yields a request, and then the request carries exactly the
      strings that were validated. */
  function PrepareCita(f: CitaForm): (r: Result<CitaRequest, Rejection>)
    ensures r.Success? <==>
              AllFilled(f)
              && ParseLocal(LocalDateTimeString(f.fecha, f.horaInicio)).Some?
              && ParseLocal(LocalDateTimeString(f.fecha, f.horaFin)).Some?
              && Timeline(ParseLocal(LocalDateTimeString(f.fecha, f.horaFin)).value)
                 - Timeline(ParseLocal(LocalDateTimeString(f.fecha, f.horaInicio)).value) >= MinDurationMs
    ensures r.Success? ==>
              r.value.fechaHoraInicio == LocalDateTimeString(f.fecha, f.horaInicio)
              && r.value.fechaHoraFin == LocalDateTimeString(f.fecha, f.horaFin)
              && r.value.clienteId == NumberOf(f.clienteId)
              && r.value.barberoId == NumberOf(f.barberoId)
              && r.value.servicioId == NumberOf(f.servicioId)
  {
    if !AllFilled(f) then Failure(MissingField)
    else
      var fechaHoraInicio := LocalDateTimeString(f.fecha, f.horaInicio);
      var fechaHoraFin := LocalDateTimeString(f.fecha, f.horaFin);
      match (ParseLocal(fechaHoraInicio), ParseLocal(fechaHoraFin))
      case (Some(tIni), Some(tFin)) =>
        if Timeline(tFin) <= Timeline(tIni) then Failure(EndNotAfterStart)
        else if Timeline(tFin) - Timeline(tIni) < MinDurationMs then Failure(TooShort)
        else Success(CitaRequest(NumberOf(f.clienteId), NumberOf(f.barberoId), NumberOf(f.servicioId),
                                 fechaHoraInicio, fechaHoraFin))
      case _ => Failure(BadDateTime)
  }

  /** Which check refuses a form: a missing field wins over everything, an
      unparsable date-time over the time order, and a reversed or empty
      interval is reported as such rather than as too short. */
  lemma RejectionOrder(f: CitaForm)
    ensures !AllFilled(f) ==> PrepareCita(f) == Failure(MissingField)
    ensures AllFilled(f) && (ParseLocal(LocalDateTimeString(f.fecha, f.horaInicio)).None?
                             || ParseLocal(LocalDateTimeString(f.fecha, f.horaFin)).None?)
            ==> PrepareCita(f) == Failure(BadDateTime)
    ensures PrepareCita(f) == Failure(EndNotAfterStart) <==>
              AllFilled(f)
              && ParseLocal(LocalDateTimeString(f.fecha, f.horaInicio)).Some?
              && ParseLocal(LocalDateTimeString(f.fecha, f.horaFin)).Some?
              && Timeline(ParseLocal(LocalDateTimeString(f.fecha, f.horaFin)).value)
                 <= Timeline(ParseLocal(LocalDateTimeString(f.fecha, f.horaInicio)).value)
  {
  }

  /** On a valid date with canonical times within the day, the form is
      accepted exactly when the end is at least 60 minutes after the start;
      an end before or at the start is refused as such, and an end less
      than an hour after it as too short. */
  lemma SameDayValidation(f: CitaForm, day: int)
    requires AllFilled(f)
    requires |f.fecha| == 10 && ParseIsoDate(f.fecha) == Some(day)
    requires IsHHMM(f.horaInicio) && HHMMValue(f.horaInicio) < MinutesPerDay
    requires IsHHMM(f.horaFin) && HHMMValue(f.horaFin) < MinutesPerDay
    ensures PrepareCita(f).Success? <==> HHMMValue(f.horaFin) - HHMMValue(f.horaInicio) >= 60
    ensures HHMMValue(f.horaFin) <= HHMMValue(f.horaInicio) ==> PrepareCita(f) == Failure(EndNotAfterStart)
    ensures HHMMValue(f.horaInicio) < HHMMValue(f.horaFin) < HHMMValue(f.horaInicio) + 60
            ==> PrepareCita(f) == Failure(TooShort)
  {
    ParseLocalOfParts(f.fecha, day, f.horaInicio);
    ParseLocalOfParts(f.fecha, day, f.horaFin);
  }

  /** The hour auto-filled from a start below 23:00 passes validation, while
      the one auto-filled from 23:00 is 00:00 of the same date and is refused:
      the form cannot book the last hour of the day through the auto-fill. */
  lemma AutoFilledEnd(f: CitaForm, day: int, hi: string)
    requires AllFilled(f)
    requires |f.fecha| == 10 && ParseIsoDate(f.fecha) == Some(day)
    requires IsHHMM(hi) && HHMMValue(hi) < MinutesPerDay
    ensures HHMMValue(hi) + 60 < MinutesPerDay ==> PrepareCita(SetHoraInicio(f, hi)).Success?
    ensures HHMMValue(hi) >= MinutesPerDay - 60 ==> PrepareCita(SetHoraInicio(f, hi)) == Failure(EndNotAfterStart)
  {
    var g := SetHoraInicio(f, hi);
    AddHourValue(hi, 60);
    SameDayValidation(g, day);
  }

  lemma AddHourValue(hi: string, n: nat)
    requires IsHHMM(hi) && HHMMValue(hi) < MinutesPerDay && n <= MinutesPerDay
    ensures IsHHMM(AddMinutesToHHMM(hi, n))
    ensures HHMMValue(AddMinutesToHHMM(hi, n))
            == if HHMMValue(hi) + n < MinutesPerDay then HHMMValue(hi) + n else HHMMValue(hi) + n - MinutesPerDay
  {
    var v := HHMMValue(hi);
    var w := if v + n < MinutesPerDay then v + n else v + n - MinutesPerDay;
    assert (v + n) % MinutesPerDay == w;
    FormatIsCanonical(w);
    AddMinutesLands(hi, n, MinutesToHHMM(w));
  }

  /** A slot draft posted by the agenda would pass the form's own checks
      exactly when the slot lasts at least an hour: the agenda skips them,
      so a shorter slot step posts appointments the form would refuse. */
  lemma DraftMeetsFormChecks(f: CitaForm, d: Draft, day: LocalDateTime)
    requires AllFilled(f)
    requires 1000 <= CivilFromDays(day.day).year <= 9999
    requires d.dayISO == ToISODate(day) && d.startMin < MinutesPerDay && d.endMin < MinutesPerDay
    ensures var g := f.(fecha := d.dayISO, horaInicio := MinutesToHHMM(d.startMin), horaFin := MinutesToHHMM(d.endMin));
            (PrepareCita(g).Success? <==> d.endMin >= d.startMin + 60)
            && (PrepareCita(g).Success? ==>
                  PrepareCita(g).value.fechaHoraInicio == DraftCita(d).fechaHoraInicio
                  && PrepareCita(g).value.fechaHoraFin == DraftCita(d).fechaHoraFin)
  {
    var g := f.(fecha := d.dayISO, horaInicio := MinutesToHHMM(d.startMin), horaFin := MinutesToHHMM(d.endMin));
    DraftStringRoundTrip(day, d.startMin);
    DraftStringRoundTrip(day, d.endMin);
    FormatIsCanonical(d.startMin);
    FormatIsCanonical(d.endMin);
    IsoDateRoundTrip(day);
    SameDayValidation(g, day.day);
  }

  /** How a fetch ended: an exception before any answer, or a status and
      a body. */
  datatype Outcome = NetworkError | Response(status: int, body: Body)

  /** A body as `leerMensajeServidor` sees it: unreadable, or its text and,
      when the text is JSON, the string fields it looks at (None when absent
      or not a string). */
  datatype Body = Unreadable | Text(text: string, json: Option<MessageFields>)

  datatype MessageFields = MessageFields(message: Option<string>, mensaje: Option<string>, error: Option<string>)

  /** `res.ok`. */
  predicate IsOk(status: int)
  {
    200 <= status <= 299
  }

  function Field(o: Option<string>): string
  {
    if o.Some? then o.value else ""
  }

  /** `a || b || ...` over strings: the first non-empty one, or "" when
      all are empty. */
  function FirstNonEmpty(candidates: seq<string>): (r: string)
    ensures r == [] <==> forall i :: 0 <= i < |candidates| ==> candidates[i] == []
    ensures r != [] ==> exists i :: 0 <= i < |candidates| && candidates[i] == r
                                    && forall j :: 0 <= j < i ==> candidates[j] == []
  {
    if candidates == [] then []
    else if candidates[0] != [] then candidates[0]
    else
      var r := FirstNonEmpty(candidates[1..]);
      assert forall i :: 1 <= i < |candidates| ==> candidates[i] == candidates[1..][i - 1];
      if r != [] then
        var k :| 0 <= k < |candidates[1..]| && candidates[1..][k] == r
                 && forall j :: 0 <= j < k ==> candidates[1..][j] == [];
        assert candidates[k + 1] == r && forall j :: 0 <= j < k + 1 ==> candidates[j] == [];
        r
      else r
  }

  lemma FirstNonEmptyStep(c: seq<string>)
    requires c != []
    ensures FirstNonEmpty(c) == if c[0] != [] then c[0] else FirstNonEmpty(c[1..])
  {
  }

  /** "HTTP <status>". */
  function HttpFallback(status: int): string
  {
    "HTTP " + IntToString(status)
  }

  /** `leerMensajeServidor`: `message`, then `mensaje`, then `error`, then
      the raw text, then "HTTP <status>"; an empty string counts as absent. */
  function LeerMensajeServidor(status: int, body: Body): (msg: string)
  {
    match body
    case Unreadable => HttpFallback(status)
    case Text(t, None) => FirstNonEmpty([t, HttpFallback(status)])
    case Text(t, Some(j)) => FirstNonEmpty([Field(j.message), Field(j.mensaje), Field(j.error), t, HttpFallback(status)])
  }

  /** The message is never empty; a non-empty `message` always wins; a
      field is used only when every field before it is empty; and when
      nothing is usable the status is reported. */
  lemma MessagePrecedence(status: int, body: Body)
    ensures LeerMensajeServidor(status, body) != []
    ensures body.Text? && body.json.Some? && Field(body.json.value.message) != []
            ==> LeerMensajeServidor(status, body) == body.json.value.message.value
    ensures body.Text? && body.json.Some? && Field(body.json.value.message) == []
            && Field(body.json.value.mensaje) != []
            ==> LeerMensajeServidor(status, body) == body.json.value.mensaje.value
    ensures body.Text? && body.json.Some? && Field(body.json.value.message) == []
            && Field(body.json.value.mensaje) == [] && Field(body.json.value.error) != []
            ==> LeerMensajeServidor(status, body) == body.json.value.error.value
    ensures body.Text? && body.text != []
            && (body.json.None? || (Field(body.json.value.message) == [] && Field(body.json.value.mensaje) == []
                                    && Field(body.json.value.error) == []))
            ==> LeerMensajeServidor(status, body) == body.text
    ensures body.Unreadable? || (body.Text? && body.text == []
                                 && (body.json.None? || (Field(body.json.value.message) == []
                                                         && Field(body.json.value.mensaje) == []
                                                         && Field(body.json.value.error) == [])))
            ==> LeerMensajeServidor(status, body) == HttpFallback(status)
  {
    var h := HttpFallback(status);
    assert h[0] == 'H';
    match body {
      case Unreadable =>
      case Text(t, None) =>
        var c := [t, h];
        FirstNonEmptyStep(c);
        FirstNonEmptyStep(c[1..]);
      case Text(t, Some(j)) =>
        var c := [Field(j.message), Field(j.mensaje), Field(j.error), t, h];
        FirstNonEmptyStep(c);
        FirstNonEmptyStep(c[1..]);
        FirstNonEmptyStep(c[2..]);
        FirstNonEmptyStep(c[3..]);
        FirstNonEmptyStep(c[4..]);
        assert c[1..][1..] == c[2..] && c[2..][1..] == c[3..] && c[3..][1..] == c[4..];
    }
  }

  /** A notification: its text and whether it is shown as an error. */
  datatype Notice = Notice(text: string, isError: bool)

  /** The notification `agendarCita` shows for a refused form. */
  function RejectionNotice(why: Rejection): (n: Notice)
    ensures n.isError && n.text != []
  {
    match why
    case MissingField => Notice("Todos los campos son requeridos", true)
    case BadDateTime => Notice("Formato de fecha/hora inválido", true)
    case EndNotAfterStart => Notice("La hora fin debe ser mayor que la hora inicio", true)
    case TooShort => Notice("La cita debe durar al menos 60 minutos", true)
  }

  /** What `agendarCita` shows once the POST has ended, and the form it
      leaves behind: a success clears the form; a 409, 422 or 404 has its
      own message; any other failure status shows the server's message;
      an exception shows a generic error. Only a success clears the form. */
  function SubmitResult(f: CitaForm, outcome: Outcome): (r: (CitaForm, Notice))
    ensures r.1.isError <==> !(outcome.Response? && IsOk(outcome.status))
    ensures r.0 == (if r.1.isError then f else EmptyForm)
    ensures outcome.Response? && outcome.status == 409 ==> r.1.text == "Ese horario ya está ocupado"
    ensures outcome.Response? && outcome.status == 422 ==> r.1.text == "Datos inválidos para la cita"
    ensures outcome.Response? && outcome.status == 404 ==> r.1.text == "Cliente/Barbero/Servicio no encontrado"
    ensures outcome.Response? && !IsOk(outcome.status) && outcome.status !in {409, 422, 404}
            ==> r.1.text == "Error al agendar cita: " + LeerMensajeServidor(outcome.status, outcome.body)
    ensures outcome.Response? && IsOk(outcome.status) ==> r.1 == Notice("Cita agendada exitosamente", false)
    ensures outcome.NetworkError? ==> r.1 == Notice("Error al agendar cita", true)
  {
    match outcome
    case NetworkError => (f, Notice("Error al agendar cita", true))
    case Response(status, body) =>
      if IsOk(status) then (EmptyForm, Notice("Cita agendada exitosamente", false))
      else if status == 409 then (f, Notice("Ese horario ya está ocupado", true))
      else if status == 422 then (f, Notice("Datos inválidos para la cita", true))
      else if status == 404 then (f, Notice("Cliente/Barbero/Servicio no encontrado", true))
      else (f, Notice("Error al agendar cita: " + LeerMensajeServidor(status, body), true))
  }

  /** One press of the submit button: a refused form posts nothing and shows
      why; an accepted one posts its request and shows the answer. */
  function AgendarCita(f: CitaForm, outcome: Outcome): (r: (Option<CitaRequest>, CitaForm, Notice))
    ensures r.0.Some? <==> PrepareCita(f).Success?
    ensures r.0.Some? ==> r.0.value == PrepareCita(f).value && (r.1, r.2) == SubmitResult(f, outcome)
    ensures r.0.None? ==> r.1 == f && r.2 == RejectionNotice(PrepareCita(f).error)
  {
    match PrepareCita(f)
    case Failure(why) => (None, f, RejectionNotice(why))
    case Success(req) =>
      var (g, n) := SubmitResult(f, outcome);
      (Some(req), g, n)
  }

  /** The quick-booking modal of the weekly agenda: the draft of the
      clicked slot (None when closed) and the client and service chosen in
      it. */
  class QuickBooking {
    var modal: Option<Draft>
    var clienteId: string
    var servicioId: string

    /** The modal starts closed with nothing chosen. */
    constructor()
      ensures modal == None && clienteId == [] && servicioId == []
    {
      modal := None;
      clienteId := [];
      servicioId := [];
    }

    /** A click on a free slot opens the modal on its draft; earlier choices
        stay selected. */
    method OpenFromSlot(d: Draft)
      modifies this
      ensures modal == Some(d)
      ensures clienteId == old(clienteId) && servicioId == old(servicioId)
    {
      modal := Some(d);
    }

    method SelectCliente(v: string)
      modifies this
      ensures clienteId == v && modal == old(modal) && servicioId == old(servicioId)
    {
      clienteId := v;
    }

    method SelectServicio(v: string)
      modifies this
      ensures servicioId == v && modal == old(modal) && clienteId == old(clienteId)
    {
      servicioId := v;
    }

    /** `cerrarModal`: closes the modal and clears both choices. */
    method Close()
      modifies this
      ensures modal == None && clienteId == [] && servicioId == []
    {
      modal := None;
      clienteId := [];
      servicioId := [];
    }

    /** The request the Confirm button would post with the chosen barber:
        none while the modal is closed or no barber is active, a missing
        choice when client or service is empty, and otherwise the draft's
        own date-time strings. */
    function Pending(barberoId: Option<nat>): (r: Option<Result<CitaRequest, Notice>>)
      reads this
      ensures r.None? <==> modal.None? || barberoId.None?
      ensures r.Some? && r.value.Failure? <==> r.Some? && (clienteId == [] || servicioId == [])
      ensures r.Some? && r.value.Failure? ==> r.value.error == Notice("Selecciona cliente y servicio", true)
      ensures r.Some? && r.value.Success? ==>
                r.value.value.fechaHoraInicio == DraftCita(modal.value).fechaHoraInicio
                && r.value.value.fechaHoraFin == DraftCita(modal.value).fechaHoraFin
                && r.value.value.barberoId == barberoId
                && r.value.value.clienteId == NumberOf(clienteId)
                && r.value.value.servicioId == NumberOf(servicioId)
    {
      if modal.None? || barberoId.None? then None
      else if clienteId == [] || servicioId == [] then Some(Failure(Notice("Selecciona cliente y servicio", true)))
      else
        var c := DraftCita(modal.value);
        Some(Success(CitaRequest(NumberOf(clienteId), barberoId, NumberOf(servicioId),
                                 c.fechaHoraInicio, c.fechaHoraFin)))
    }

    /** `confirmarAgendamiento`: posts the pending request, if any. A success
        notifies and closes the modal; a refusal shows the server's message
        and keeps the modal open with its choices, as does an exception. */
    method Confirm(barberoId: Option<nat>, outcome: Outcome) returns (sent: Option<CitaRequest>, notice: Option<Notice>)
      modifies this
      ensures var p := old(Pending(barberoId));
              (sent.Some? <==> p.Some? && p.value.Success?)
              && (sent.Some? ==> sent.value == p.value.value)
              && (p.None? ==> notice.None?)
              && (p.Some? && p.value.Failure? ==> notice == Some(p.value.error))
      ensures sent.Some? && outcome.Response? && IsOk(outcome.status)
              ==> notice == Some(Notice("Cita creada desde la agenda", false))
                  && modal == None && clienteId == [] && servicioId == []
      ensures sent.Some? && outcome.Response? && !IsOk(outcome.status)
              ==> notice == Some(Notice("No se pudo agendar: " + LeerMensajeServidor(outcome.status, outcome.body), true))
      ensures sent.Some? && outcome.NetworkError? ==> notice == Some(Notice("Error al crear cita", true))
      ensures !(sent.Some? && outcome.Response? && IsOk(outcome.status))
              ==> modal == old(modal) && clienteId == old(clienteId) && servicioId == old(servicioId)
    {
      var p := Pending(barberoId);
      sent, notice := None, None;
      if p.None? {
        return;
      }
      if p.value.Failure? {
        notice := Some(p.value.error);
        return;
      }
      sent := Some(p.value.value);
      match outcome {
        case NetworkError =>
          notice := Some(Notice("Error al crear cita", true));
        case Response(status, body) =>
          if IsOk(status) {
            notice := Some(Notice("Cita creada desde la agenda", false));
            Close();
          } else {
            notice := Some(Notice("No se pudo agendar: " + LeerMensajeServidor(status, body), true));
          }
      }
    }
  }
}
