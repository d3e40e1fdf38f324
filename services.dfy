/** The services screen: validation of a new service, the payload of an
    edit, and the list shown under the "show inactive" switch and the
    search box. */
module Services {
  import opened Wrappers
  import opened Text
  import opened Booking

  /** A service as listed: `precio` is `Number(s.precio)`, None when that is
      NaN. */
  datatype Servicio = Servicio(id: int, nombre: string, precio: Option<int>, activo: bool)

  /** The create and edit forms: name and price as typed. */
  datatype ServicioForm = ServicioForm(nombre: string, precio: string)

  /** The body of the POST that creates a service. */
  datatype NuevoServicio = NuevoServicio(nombre: string, precio: nat)

  /** `crearServicio` before the request: the trimmed name must not be
      empty; the price must be a number that is not negative (an empty price
      is `Number("")`, that is 0). The name is sent trimmed. */
  function CrearServicio(form: ServicioForm): (r: Result<NuevoServicio, Notice>)
    ensures r.Success? <==> Trim(form.nombre) != [] && NumberOf(form.precio).Some?
    ensures Trim(form.nombre) == [] ==> r == Failure(Notice("El nombre del servicio es requerido", true))
    ensures Trim(form.nombre) != [] && NumberOf(form.precio).None? ==> r == Failure(Notice("Precio inválido", true))
    ensures r.Success? ==>
              r.value.nombre == Trim(form.nombre) && r.value.precio == NumberOf(form.precio).value
              && !IsSpace(r.value.nombre[0]) && !IsSpace(r.value.nombre[|r.value.nombre| - 1])
  {
    var nombre := Trim(form.nombre);
    TrimEmptyIff(form.nombre);
    if nombre == [] then Failure(Notice("El nombre del servicio es requerido", true))
    else
      match NumberOf(form.precio)
      case None => Failure(Notice("Precio inválido", true))
      case Some(p) => Success(NuevoServicio(nombre, p))
  }

  /** A name made only of whitespace is refused, whatever the price. */
  lemma BlankNameRefused(form: ServicioForm)
    requires forall k :: 0 <= k < |form.nombre| ==> IsSpace(form.nombre[k])
    ensures CrearServicio(form) == Failure(Notice("El nombre del servicio es requerido", true))
  {
    TrimEmptyIff(form.nombre);
  }

  /** The body of the PUT that edits a service: the id and, each only when
      present, the new name and price. */
  datatype EdicionServicio = EdicionServicio(id: int, nombre: Option<string>, precio: Option<nat>)

  /** `guardarEdicion` before the request. No edit is open when the id is
      null or 0 (both falsy). The name counts when its trimmed form is not
      empty; the price counts when it is a number that is not negative. With
      neither, nothing is sent. The second price check of the source repeats
      a condition already known to hold, so it never fires. */
  function GuardarEdicion(editId: Option<int>, form: ServicioForm): (r: Option<Result<EdicionServicio, Notice>>)
    ensures r.None? <==> editId.None? || editId == Some(0)
    ensures r.Some? ==>
              (r.value.Failure? <==> Trim(form.nombre) == [] && NumberOf(form.precio).None?)
    ensures r.Some? && r.value.Failure? ==> r.value.error == Notice("No hay cambios para guardar", true)
    ensures r.Some? && r.value.Success? ==>
              r.value.value.id == editId.value
              && r.value.value.nombre == (if Trim(form.nombre) != [] then Some(Trim(form.nombre)) else None)
              && r.value.value.precio == NumberOf(form.precio)
  {
    if editId.None? || editId == Some(0) then None
    else
      var nombreTrim := Trim(form.nombre);
      var tieneNombre := nombreTrim != [];
      var precioNumber := NumberOf(form.precio);
      var tienePrecio := precioNumber.Some?;
      if !tieneNombre && !tienePrecio then Some(Failure(Notice("No hay cambios para guardar", true)))
      else if tienePrecio && precioNumber.None? then Some(Failure(Notice("Precio inválido", true)))
      else
        Some(Success(EdicionServicio(editId.value,
                                     if tieneNombre then Some(nombreTrim) else None,
                                     if tienePrecio then Some(precioNumber.value) else None)))
  }

  /** Because `Number("")` is 0, a cleared price field is an edit to price
      0: an open edit with an empty price is always sent, even with a blank
      name, and it sets the price to 0. */
  lemma ClearedPriceIsZero(editId: int, nombre: string)
    requires editId != 0
    ensures GuardarEdicion(Some(editId), ServicioForm(nombre, "")).Some?
    ensures GuardarEdicion(Some(editId), ServicioForm(nombre, "")).value.Success?
    ensures GuardarEdicion(Some(editId), ServicioForm(nombre, "")).value.value.precio == Some(0)
  {
  }

  /** `Array.prototype.filter`: the elements that satisfy p, in order. */
  function Filter<T(!new)>(s: seq<T>, p: T -> bool): (r: seq<T>)
    ensures |r| <= |s|
    ensures forall x :: x in r <==> x in s && p(x)
    ensures forall x {:trigger multiset(r)[x]} :: multiset(r)[x] == if p(x) then multiset(s)[x] else 0
  {
    if s == [] then []
    else
      var rest := Filter(s[1..], p);
      assert s == [s[0]] + s[1..];
      assert forall x :: x in s <==> x == s[0] || x in s[1..];
      if p(s[0]) then [s[0]] + rest else rest
  }

  /** Filtering a concatenation filters each part. */
  lemma {:induction false} FilterAppend<T(!new)>(a: seq<T>, b: seq<T>, p: T -> bool)
    ensures Filter(a + b, p) == Filter(a, p) + Filter(b, p)
  {
    if a == [] {
      assert a + b == b;
    } else {
      var head := if p(a[0]) then [a[0]] else [];
      assert Filter(a + b, p) == head + Filter(a[1..] + b, p) by {
        assert (a + b)[0] == a[0] && (a + b)[1..] == a[1..] + b;
      }
      FilterAppend(a[1..], b, p);
      assert head + (Filter(a[1..], p) + Filter(b, p)) == (head + Filter(a[1..], p)) + Filter(b, p);
    }
  }

  /** The price as the search box sees it: "" when NaN. */
  function PrecioTexto(precio: Option<int>): string
  {
    if precio.Some? then IntToString(precio.value) else ""
  }

  /** Whether a service matches an already lower-cased query: every service
      matches the empty query; otherwise the query must occur in the
      lower-cased name or in the price's digits. */
  predicate MatchesQuery(s: Servicio, q: string)
  {
    q == [] || Contains(ToLower(s.nombre), q) || Contains(PrecioTexto(s.precio), q)
  }

  /** The list on screen: inactive services only when the switch is on, then
      those matching the lower-cased search text. */
  function VisibleServicios(servicios: seq<Servicio>, mostrarInactivos: bool, busqueda: string): (r: seq<Servicio>)
    ensures forall s :: s in r <==>
              s in servicios && (mostrarInactivos || s.activo) && MatchesQuery(s, ToLower(busqueda))
    ensures forall s :: multiset(r)[s] ==
              if (mostrarInactivos || s.activo) && MatchesQuery(s, ToLower(busqueda))
              then multiset(servicios)[s] else 0
  {
    Filter(Filter(servicios, SwitchPasses(mostrarInactivos)), QueryPasses(ToLower(busqueda)))
  }

  /** The switch's filter: everything when inactive services are shown. */
  function SwitchPasses(mostrarInactivos: bool): Servicio -> bool
  {
    (s: Servicio) => mostrarInactivos || s.activo
  }

  /** The search box's filter, on the lower-cased query. */
  function QueryPasses(q: string): Servicio -> bool
  {
    (s: Servicio) => MatchesQuery(s, q)
  }

  /** The list of two concatenated catalogues is the two lists one after the
      other: the filters keep the catalogue's order. */
  lemma VisibleAppend(a: seq<Servicio>, b: seq<Servicio>, mostrarInactivos: bool, busqueda: string)
    ensures VisibleServicios(a + b, mostrarInactivos, busqueda)
            == VisibleServicios(a, mostrarInactivos, busqueda) + VisibleServicios(b, mostrarInactivos, busqueda)
  {
    var sw, qp := SwitchPasses(mostrarInactivos), QueryPasses(ToLower(busqueda));
    FilterAppend(a, b, sw);
    FilterAppend(Filter(a, sw), Filter(b, sw), qp);
  }

  /** With an empty search and the switch on, every service is listed; with
      the switch off, only active ones ever are. */
  lemma VisibleExtremes(servicios: seq<Servicio>, busqueda: string)
    ensures forall s :: s in VisibleServicios(servicios, true, []) <==> s in servicios
    ensures forall s :: s in VisibleServicios(servicios, false, busqueda) ==> s.activo
  {
  }

  lemma LowerCharIdempotent(c: char)
    ensures LowerChar(LowerChar(c)) == LowerChar(c)
  {
  }

  /** The search ignores the case of the query: typing it in capitals lists
      the same services. */
  lemma SearchIgnoresCase(servicios: seq<Servicio>, mostrarInactivos: bool, busqueda: string)
    ensures VisibleServicios(servicios, mostrarInactivos, ToLower(busqueda))
            == VisibleServicios(servicios, mostrarInactivos, busqueda)
  {
    forall i | 0 <= i < |busqueda|
      ensures ToLower(ToLower(busqueda))[i] == ToLower(busqueda)[i]
    {
      LowerCharIdempotent(busqueda[i]);
    }
    assert ToLower(ToLower(busqueda)) == ToLower(busqueda);
  }

  /** A service whose name holds the query, in any case, is listed when
      its activity passes the switch. */
  lemma NameHitIsListed(servicios: seq<Servicio>, s: Servicio, mostrarInactivos: bool, busqueda: string, i: int)
    requires s in servicios && (mostrarInactivos || s.activo)
    requires OccursAt(ToLower(busqueda), ToLower(s.nombre), i)
    ensures s in VisibleServicios(servicios, mostrarInactivos, busqueda)
  {
  }
}
