/** The payment column of the appointment list: the status chip and the
    pay button with its `togglePagado` handler. The clock (`Date.now()`) and
    the browser's confirmation dialog are parameters. */
module Payments {
  import opened Wrappers
  import opened Booking

  datatype Chip = Pendiente | Pago | Debe

  /** The appointment is over: its end instant lies strictly before now. */
  predicate YaPaso(finMs: int, nowMs: int)
  {
    finMs < nowMs
  }

  /** The chip: "Pendiente" while the appointment is not over, then "PAGO"
      or "DEBE" according to the paid flag; the three states are told apart
      exactly. */
  function ChipFor(yaPaso: bool, pagado: bool): (c: Chip)
    ensures c == Pendiente <==> !yaPaso
    ensures c == Pago <==> yaPaso && pagado
    ensures c == Debe <==> yaPaso && !pagado
  {
    if yaPaso && pagado then Pago
    else if yaPaso && !pagado then Debe
    else Pendiente
  }

  /** The pay button is disabled before the end, while this appointment's
      request is running, and once it is paid. */
  predicate ButtonDisabled(yaPaso: bool, loadingThis: bool, pagado: bool)
  {
    !yaPaso || loadingThis || pagado
  }

  /** `togglePagado`: nothing before the end; otherwise the new state is the
      negated flag, and marking as paid first needs the user's confirmation.
      The result is the state sent to the server, if any. */
  function TogglePagado(yaPaso: bool, pagado: bool, confirmed: bool): (sent: Option<bool>)
    ensures sent.Some? ==> yaPaso && sent.value == !pagado
    ensures sent == Some(true) ==> confirmed
    ensures sent.Some? <==> yaPaso && (pagado || confirmed)
  {
    if !yaPaso then None
    else
      var nuevoEstado := !pagado;
      if nuevoEstado && !confirmed then None
      else Some(nuevoEstado)
  }

  /** The button is enabled exactly on a DEBE chip (when no request for this
      appointment is running), and pressing it can only mark the appointment
      as paid, and only once the user confirms: the "mark as DEBE" branch of
      the handler cannot be reached from the button. */
  lemma ButtonOnlyMarksPaid(yaPaso: bool, pagado: bool, confirmed: bool)
    ensures !ButtonDisabled(yaPaso, false, pagado) <==> ChipFor(yaPaso, pagado) == Debe
    ensures !ButtonDisabled(yaPaso, false, pagado) ==>
              TogglePagado(yaPaso, pagado, confirmed) == (if confirmed then Some(true) else None)
    ensures !ButtonDisabled(yaPaso, false, pagado) && confirmed ==>
              ChipFor(yaPaso, TogglePagado(yaPaso, pagado, confirmed).value) == Pago
  {
  }

  /** Both the row and the handler compute "over" from the same two
      instants: an appointment ending exactly now still shows "Pendiente",
      and the handler sends nothing for it. */
  lemma ChipAtEnd(finMs: int, nowMs: int, pagado: bool, confirmed: bool)
    ensures ChipFor(YaPaso(finMs, nowMs), pagado) == Pendiente <==> nowMs <= finMs
    ensures TogglePagado(YaPaso(finMs, nowMs), pagado, confirmed).Some? ==> finMs < nowMs
    ensures TogglePagado(YaPaso(finMs, nowMs), pagado, confirmed).Some? ==>
              ChipFor(YaPaso(finMs, nowMs), pagado) != Pendiente
  {
  }

  /** What the handler shows once the request has ended. */
  function PaymentNotice(nuevoEstado: bool, outcome: Outcome): (n: Notice)
    ensures !n.isError <==> outcome.Response? && IsOk(outcome.status)
    ensures !n.isError ==> n.text == (if nuevoEstado then "Cita marcada como PAGO" else "Cita marcada como DEBE")
    ensures outcome.Response? && !IsOk(outcome.status) ==>
              n.text == "No se pudo actualizar el pago: " + LeerMensajeServidor(outcome.status, outcome.body)
    ensures outcome.NetworkError? ==> n == Notice("Error al actualizar estado de pago", true)
  {
    match outcome
    case NetworkError => Notice("Error al actualizar estado de pago", true)
    case Response(status, body) =>
      if !IsOk(status) then Notice("No se pudo actualizar el pago: " + LeerMensajeServidor(status, body), true)
      else Notice(if nuevoEstado then "Cita marcada como PAGO" else "Cita marcada como DEBE", false)
  }
}
