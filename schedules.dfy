/** The weekly availability editor of a barber: the rows the form holds,
    the three row operations and the guard before saving them. */
module Schedules {
  import opened Wrappers
  import opened Booking

  /** One availability row: day of the week (1 = Monday .. 7 = Sunday) and
      the opening and closing times as "HH:MM". */
  datatype Fila = Fila(diaSemana: int, horaInicio: string, horaFin: string)

  /** The row "Añadir fila" appends: Monday, 09:00 to 18:00. */
  const DefaultFila: Fila := Fila(1, "09:00", "18:00")

  /** `addFila`: the old rows, then one default row. */
  function AddFila(filas: seq<Fila>): (r: seq<Fila>)
    ensures |r| == |filas| + 1 && r[..|filas|] == filas && r[|filas|] == DefaultFila
  {
    filas + [DefaultFila]
  }

  /** `prev.filter((_, idx) => idx !== i)` over the rows from position
      `start` on: every row whose position is not i. */
  function DropIndex(s: seq<Fila>, i: int, start: int): seq<Fila>
    decreases |s|
  {
    if s == [] then []
    else (if start == i then [] else [s[0]]) + DropIndex(s[1..], i, start + 1)
  }

  lemma {:induction false} DropIndexSlices(s: seq<Fila>, i: int, start: int)
    ensures start <= i < start + |s| ==> DropIndex(s, i, start) == s[..i - start] + s[i - start + 1..]
    ensures !(start <= i < start + |s|) ==> DropIndex(s, i, start) == s
    decreases |s|
  {
    if s != [] {
      DropIndexSlices(s[1..], i, start + 1);
      if start == i {
        assert s[..0] == [];
      } else if start < i < start + |s| {
        var j := i - start;
        calc {
          DropIndex(s, i, start);
          [s[0]] + DropIndex(s[1..], i, start + 1);
          [s[0]] + (s[1..][..j - 1] + s[1..][j..]);
          { assert s[1..][..j - 1] == s[1..j]; assert s[1..][j..] == s[j + 1..]; }
          [s[0]] + (s[1..j] + s[j + 1..]);
          { assert [s[0]] + s[1..j] == s[..j]; }
          s[..j] + s[j + 1..];
        }
      } else {
        assert [s[0]] + s[1..] == s;
      }
    }
  }

  /** `removeFila(i)`: removes the row at position i and only it; an index
      outside the list changes nothing. */
  function RemoveFila(filas: seq<Fila>, i: int): (r: seq<Fila>)
    ensures 0 <= i < |filas| ==>
              |r| == |filas| - 1
              && (forall k :: 0 <= k < i ==> r[k] == filas[k])
              && (forall k :: i <= k < |r| ==> r[k] == filas[k + 1])
    ensures !(0 <= i < |filas|) ==> r == filas
  {
    DropIndexSlices(filas, i, 0);
    DropIndex(filas, i, 0)
  }

  /** The field an edit of a row sets, with its new value. */
  datatype FilaEdit = SetDiaSemana(dia: int) | SetHoraInicio(inicio: string) | SetHoraFin(fin: string)

  /** `{ ...r, [field]: val }`. */
  function ApplyEdit(r: Fila, e: FilaEdit): Fila
  {
    match e
    case SetDiaSemana(d) => r.(diaSemana := d)
    case SetHoraInicio(h) => r.(horaInicio := h)
    case SetHoraFin(h) => r.(horaFin := h)
  }

  /** `updateFila(i, field, val)`: row i gets the new value in that field
      and keeps its other two; every other row is unchanged. */
  function UpdateFila(filas: seq<Fila>, i: int, e: FilaEdit): (r: seq<Fila>)
    ensures |r| == |filas|
    ensures forall k :: 0 <= k < |filas| && k != i ==> r[k] == filas[k]
    ensures 0 <= i < |filas| ==>
              (if e.SetDiaSemana? then r[i].diaSemana == e.dia else r[i].diaSemana == filas[i].diaSemana)
              && (if e.SetHoraInicio? then r[i].horaInicio == e.inicio else r[i].horaInicio == filas[i].horaInicio)
              && (if e.SetHoraFin? then r[i].horaFin == e.fin else r[i].horaFin == filas[i].horaFin)
  {
    seq(|filas|, k requires 0 <= k < |filas| => if k == i then ApplyEdit(filas[k], e) else filas[k])
  }

  /** Removing the row just added gives the old list back. */
  lemma RemoveUndoesAdd(filas: seq<Fila>)
    ensures RemoveFila(AddFila(filas), |filas|) == filas
  {
    var r := RemoveFila(AddFila(filas), |filas|);
    assert |r| == |filas|;
    assert forall k :: 0 <= k < |filas| ==> r[k] == filas[k];
  }

  /** An edit of a row that is then removed leaves no trace. */
  lemma RemoveAfterUpdate(filas: seq<Fila>, i: int, e: FilaEdit)
    ensures RemoveFila(UpdateFila(filas, i, e), i) == RemoveFila(filas, i)
  {
    var a, b := RemoveFila(UpdateFila(filas, i, e), i), RemoveFila(filas, i);
    if 0 <= i < |filas| {
      assert |a| == |b|;
      forall k | 0 <= k < |a|
        ensures a[k] == b[k]
      {
        if k < i {
          assert a[k] == UpdateFila(filas, i, e)[k];
        } else {
          assert a[k] == UpdateFila(filas, i, e)[k + 1];
        }
      }
    }
  }

  /** The two edits set the same field. */
  predicate SameField(e1: FilaEdit, e2: FilaEdit)
  {
    (e1.SetDiaSemana? && e2.SetDiaSemana?)
    || (e1.SetHoraInicio? && e2.SetHoraInicio?)
    || (e1.SetHoraFin? && e2.SetHoraFin?)
  }

  /** Editing a field twice keeps only the second value. */
  lemma UpdateTwiceLastWins(filas: seq<Fila>, i: int, e1: FilaEdit, e2: FilaEdit)
    requires SameField(e1, e2)
    ensures UpdateFila(UpdateFila(filas, i, e1), i, e2) == UpdateFila(filas, i, e2)
  {
    var a, b := UpdateFila(UpdateFila(filas, i, e1), i, e2), UpdateFila(filas, i, e2);
    assert |a| == |b|;
    forall k | 0 <= k < |a|
      ensures a[k] == b[k]
    {
    }
  }

  /** Edits of two different fields of a row commute. */
  lemma UpdateOtherFieldsCommute(filas: seq<Fila>, i: int, e1: FilaEdit, e2: FilaEdit)
    requires !SameField(e1, e2)
    ensures UpdateFila(UpdateFila(filas, i, e1), i, e2) == UpdateFila(UpdateFila(filas, i, e2), i, e1)
  {
    var a, b := UpdateFila(UpdateFila(filas, i, e1), i, e2), UpdateFila(UpdateFila(filas, i, e2), i, e1);
    assert |a| == |b|;
    forall k | 0 <= k < |a|
      ensures a[k] == b[k]
    {
    }
  }

  /** The body of the PUT: the barber and all rows, in order. */
  datatype Disponibilidad = Disponibilidad(idBarbero: int, horariosDisponibles: seq<Fila>)

  /** `guardarDisponibilidad` before the request: an empty list is refused
      with "Añade al menos una fila"; otherwise every row is sent, in order. */
  function GuardarDisponibilidad(idBarbero: int, filas: seq<Fila>): (r: Result<Disponibilidad, Notice>)
    ensures r.Failure? <==> filas == []
    ensures r.Failure? ==> r.error == Notice("Añade al menos una fila", true)
    ensures r.Success? ==> r.value.idBarbero == idBarbero && r.value.horariosDisponibles == filas
  {
    if |filas| == 0 then Failure(Notice("Añade al menos una fila", true))
    else Success(Disponibilidad(idBarbero, filas))
  }

  /** A freshly added row is never lost on saving: after "Añadir fila" the
      list can always be sent, and it ends with the default row. */
  lemma AddedRowIsSaved(idBarbero: int, filas: seq<Fila>)
    ensures GuardarDisponibilidad(idBarbero, AddFila(filas)).Success?
    ensures var sent := GuardarDisponibilidad(idBarbero, AddFila(filas)).value.horariosDisponibles;
            sent[|sent| - 1] == DefaultFila
  {
  }
}
