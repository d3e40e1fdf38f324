/** The weekly availability grid: the two `buildTimeSlots` builders, the two
    copies of `overlapSlotWithCita`, the per-day "booked" test and the
    cells that turn a click on a free slot into a booking draft. */
module Slots {
  import opened Wrappers
  import opened Text
  import opened Clock
  import opened Calendar

  /** A bucket [startMin, endMin) of the working day with its "HH:MM" label. */
  datatype Slot = Slot(startMin: nat, endMin: nat, caption: string)

  /** The grid both builders produce: slots of `step` minutes starting at
      `start`, one for every start below `end`. The last slot is not clipped
      to `end`. */
  function Grid(start: nat, end: int, step: nat): seq<Slot>
    requires step > 0
    decreases end - start
  {
    if start >= end then [] else [Slot(start, start + step, MinutesToHHMM(start))] + Grid(start + step, end, step)
  }

  lemma CeilStep(n: int, step: nat, d: int)
    requires step > 0 && n >= 1
    requires (n - 1) * step < d - step <= n * step
    ensures n * step < d <= (n + 1) * step
  {
    assert (n - 1) * step + step == n * step;
    assert n * step + step == (n + 1) * step;
  }

  lemma OffsetStep(start: nat, step: nat, i: nat)
    requires i > 0
    ensures start + step + (i - 1) * step == start + i * step
  {
  }

  /** The grid has ceil((end - start) / step) slots, none when start >= end:
      n slots of `step` minutes cover the window and n - 1 do not. */
  lemma {:induction false} GridLength(start: nat, end: int, step: nat)
    requires step > 0
    ensures start >= end ==> |Grid(start, end, step)| == 0
    ensures start < end ==>
              |Grid(start, end, step)| >= 1
              && (|Grid(start, end, step)| - 1) * step < end - start <= |Grid(start, end, step)| * step
    decreases end - start
  {
    if start < end && start + step < end {
      GridLength(start + step, end, step);
      var n := |Grid(start + step, end, step)|;
      assert |Grid(start, end, step)| == n + 1;
      CeilStep(n, step, end - start);
    }
  }

  /** Slot i starts at start + i * step, before `end`, lasts `step` minutes
      and is labelled with its start. */
  lemma {:induction false} GridAt(start: nat, end: int, step: nat, i: nat)
    requires step > 0 && i < |Grid(start, end, step)|
    ensures start + i * step < end
    ensures Grid(start, end, step)[i]
            == Slot(start + i * step, start + i * step + step, MinutesToHHMM(start + i * step))
    decreases i
  {
    if i > 0 {
      GridAt(start + step, end, step, i - 1);
      OffsetStep(start, step, i);
    }
  }

  /** The last slot reaches `end` or beyond: it is not clipped. */
  lemma {:induction false} GridLastReachesEnd(start: nat, end: int, step: nat)
    requires step > 0 && start < end
    ensures Grid(start, end, step)[|Grid(start, end, step)| - 1].endMin >= end
    decreases end - start
  {
    if start + step < end {
      GridLastReachesEnd(start + step, end, step);
    }
  }

  /** One step of a builder loop: pushing the slot at t keeps the slots so
      far plus the grid still to come equal to the whole grid. */
  lemma GridPush(out: seq<Slot>, t: nat, first: nat, last: int, step: nat)
    requires step > 0 && t < last
    requires out + Grid(t, last, step) == Grid(first, last, step)
    ensures (out + [Slot(t, t + step, Pad2(t / 60) + ":" + Pad2(t % 60))]) + Grid(t + step, last, step)
            == Grid(first, last, step)
  {
    var slot := Slot(t, t + step, MinutesToHHMM(t));
    assert Grid(t, last, step) == [slot] + Grid(t + step, last, step);
    assert (out + [slot]) + Grid(t + step, last, step) == out + ([slot] + Grid(t + step, last, step));
  }

  /** The slots of a window whose bounds may be NaN: `t < NaN` and
      `NaN < end` are both false, so a NaN bound gives no slots. */
  function SlotsBetween(start: Option<nat>, end: Option<nat>, step: nat): seq<Slot>
    requires step > 0
  {
    if start.Some? && end.Some? then Grid(start.value, end.value, step) else []
  }

  /** The module-level `buildTimeSlots`: a `for` loop from parseHHMM(hhIni)
      in steps of stepMin while below parseHHMM(hhFin), pushing one slot per
      start. A step of 0 or less never ends the loop, so the step must be
      positive. */
  method BuildTimeSlots(hhIni: string, hhFin: string, stepMin: nat) returns (out: seq<Slot>)
    requires stepMin > 0
    ensures out == SlotsBetween(ParseHHMM(hhIni), ParseHHMM(hhFin), stepMin)
  {
    var start := ParseHHMM(hhIni);
    var end := ParseHHMM(hhFin);
    out := [];
    if start.Some? && end.Some? {
      var first, last := start.value, end.value;
      var t := first;
      while t < last
        invariant out + Grid(t, last, stepMin) == Grid(first, last, stepMin)
        decreases last - t
      {
        var t2 := t + stepMin;
        GridPush(out, t, first, last, stepMin);
        out := out + [Slot(t, t2, Pad2(t / 60) + ":" + Pad2(t % 60))];
        t := t2;
      }
      assert out + [] == out;
    }
  }

  /** The weekly agenda's own `buildTimeSlots`, the one that renders: a
      `while` loop that compares the current label with the end label as
      strings, reads the start with toMinutes, and formats the next label
      from the slot's end. The string comparison is the time order only for
      canonical labels, and the labels stay canonical (two-digit hours) only
      while the next start stays below 100 hours, hence the requires; the
      agenda calls it with "09:00", "18:00" and 60. */
  method BuildTimeSlotsLocal(startHH: string, endHH: string, stepMin: nat) returns (slots: seq<Slot>)
    requires stepMin > 0 && IsHHMM(startHH) && IsHHMM(endHH)
    requires HHMMValue(endHH) + stepMin <= 6000
    ensures slots == Grid(HHMMValue(startHH), HHMMValue(endHH), stepMin)
  {
    var first, last := HHMMValue(startHH), HHMMValue(endHH);
    slots := [];
    var cur := startHH;
    while StrLess(cur, endHH)
      invariant IsHHMM(cur)
      invariant slots + Grid(HHMMValue(cur), last, stepMin) == Grid(first, last, stepMin)
      decreases last - HHMMValue(cur)
    {
      CanonicalLessIff(cur, endHH);
      CanonicalRoundTrip(cur);
      var s := ToMinutes(cur).value;
      var e := s + stepMin;
      slots := slots + [Slot(s, e, cur)];
      var h := e / 60;
      var m := e % 60;
      cur := Pad2(h) + ":" + Pad2(m);
      FormatIsCanonical(e);
    }
    CanonicalLessIff(cur, endHH);
  }

  /** On canonical labels the two builders specify the same grid. */
  lemma BuildersAgree(startHH: string, endHH: string, stepMin: nat)
    requires stepMin > 0 && IsHHMM(startHH) && IsHHMM(endHH)
    ensures SlotsBetween(ParseHHMM(startHH), ParseHHMM(endHH), stepMin)
            == Grid(HHMMValue(startHH), HHMMValue(endHH), stepMin)
  {
    CanonicalRoundTrip(startHH);
    CanonicalRoundTrip(endHH);
  }

  /** The agenda's working day, 09:00 (540) to 18:00 (1080) in steps of
      60, is nine hourly slots, the first labelled "09:00" and the last
      "17:00", which ends exactly at closing time. */
  lemma WorkingDayGrid(first: nat, last: nat, step: nat)
    requires first == 540 && last == 1080 && step == 60
    ensures |Grid(first, last, step)| == 9
    ensures Grid(first, last, step)[0] == Slot(540, 600, "09:00")
    ensures Grid(first, last, step)[8] == Slot(1020, 1080, "17:00")
  {
    GridLength(first, last, step);
    GridAt(first, last, step, 0);
    GridAt(first, last, step, 8);
    var open, lastLabel := "09:00", "17:00";
    CanonicalFormats(open);
    CanonicalFormats(lastLabel);
  }

  /** A window no longer than one step still gets one whole slot: the slot
      is not clipped and no window shorter than the step is empty. With
      "09:00" to "09:30" in steps of 60 this is the single slot 540-600. */
  lemma ShortWindowOneSlot(start: nat, end: int, step: nat)
    requires step > 0 && start < end <= start + step
    ensures Grid(start, end, step) == [Slot(start, start + step, MinutesToHHMM(start))]
  {
    assert Grid(start + step, end, step) == [];
  }

  /** An appointment as the backend lists it: start and end as local
      ISO date-times. */
  datatype Cita = Cita(fechaHoraInicio: string, fechaHoraFin: string)

  /** The module-level `overlapSlotWithCita`: strict half-open overlap of
      the slot with the appointment's minutes of the day (the date is
      ignored). An invalid date makes a NaN comparison, which is false. */
  predicate Overlaps(slot: Slot, cita: Cita)
  {
    match (IsoToMinutes(cita.fechaHoraInicio), IsoToMinutes(cita.fechaHoraFin))
    case (Some(cStart), Some(cEnd)) => slot.startMin < cEnd && slot.endMin > cStart
    case _ => false
  }

  /** The agenda's local `overlapSlotWithCita`: the same test, reading
      `getHours() * 60 + getMinutes()` off `new Date` itself and writing the
      second comparison the other way round. */
  predicate OverlapsLocal(slot: Slot, cita: Cita)
  {
    match (ParseLocal(cita.fechaHoraInicio), ParseLocal(cita.fechaHoraFin))
    case (Some(ini), Some(fin)) =>
      var citaStartMin := ini.ms / MsPerMinute;
      var citaEndMin := fin.ms / MsPerMinute;
      slot.startMin < citaEndMin && citaStartMin < slot.endMin
    case _ => false
  }

  /** The two copies decide every slot and appointment alike. */
  lemma OverlapCopiesAgree(slot: Slot, cita: Cita)
    ensures OverlapsLocal(slot, cita) == Overlaps(slot, cita)
  {
  }

  predicate InRange(x: int, lo: int, hi: int)
  {
    lo <= x < hi
  }

  /** Overlap means sharing a minute: the slot and the appointment overlap
      exactly when both ends parse and some minute lies in both half-open
      intervals. So touching ends do not overlap. */
  lemma OverlapIffSharedMinute(slot: Slot, cita: Cita)
    requires slot.startMin < slot.endMin
    ensures IsoToMinutes(cita.fechaHoraInicio).Some? && IsoToMinutes(cita.fechaHoraFin).Some?
            && IsoToMinutes(cita.fechaHoraInicio).value < IsoToMinutes(cita.fechaHoraFin).value
            ==> (Overlaps(slot, cita) <==>
                   exists x :: InRange(x, slot.startMin, slot.endMin)
                               && InRange(x, IsoToMinutes(cita.fechaHoraInicio).value,
                                          IsoToMinutes(cita.fechaHoraFin).value))
    ensures IsoToMinutes(cita.fechaHoraInicio).None? || IsoToMinutes(cita.fechaHoraFin).None?
            ==> !Overlaps(slot, cita)
    ensures IsoToMinutes(cita.fechaHoraInicio) == Some(slot.endMin) ==> !Overlaps(slot, cita)
    ensures IsoToMinutes(cita.fechaHoraFin) == Some(slot.startMin) ==> !Overlaps(slot, cita)
  {
    if Overlaps(slot, cita) && IsoToMinutes(cita.fechaHoraInicio).value < IsoToMinutes(cita.fechaHoraFin).value {
      var cStart := IsoToMinutes(cita.fechaHoraInicio).value;
      var x := if slot.startMin < cStart then cStart else slot.startMin;
      assert InRange(x, slot.startMin, slot.endMin);
      assert InRange(x, cStart, IsoToMinutes(cita.fechaHoraFin).value);
    }
  }

  /** `citas.some(c => overlapSlotWithCita(slot, c))`: the slot is booked
      when some appointment of the day overlaps it. */
  function Booked(slot: Slot, citas: seq<Cita>): (b: bool)
    ensures b <==> exists i :: 0 <= i < |citas| && Overlaps(slot, citas[i])
  {
    if citas == [] then false
    else
      var rest := Booked(slot, citas[1..]);
      assert forall i :: 1 <= i < |citas| ==> citas[i] == citas[1..][i - 1];
      Overlaps(slot, citas[0]) || rest
  }

  /** The order of the day's list does not matter: any rearrangement of
      the same appointments books the same slots. */
  lemma BookedIgnoresOrder(slot: Slot, a: seq<Cita>, b: seq<Cita>)
    requires multiset(a) == multiset(b)
    ensures Booked(slot, a) == Booked(slot, b)
  {
    if Booked(slot, a) {
      var i :| 0 <= i < |a| && Overlaps(slot, a[i]);
      assert a[i] in multiset(b);
      var j :| 0 <= j < |b| && b[j] == a[i];
    }
    if Booked(slot, b) {
      var j :| 0 <= j < |b| && Overlaps(slot, b[j]);
      assert b[j] in multiset(a);
      var i :| 0 <= i < |a| && a[i] == b[j];
    }
  }

  /** What a click on a free slot hands to the booking modal. */
  datatype Draft = Draft(dayISO: string, startMin: nat, endMin: nat)

  /** A rendered slot: red when booked, and a click payload when it is
      clickable. */
  datatype Cell = Cell(booked: bool, click: Option<Draft>)

  /** One cell of a day row: booked when some appointment of the day
      overlaps the slot; clickable only when free and a click handler was
      given; a click emits {dayISO, startMin, endMin}. */
  function CellFor(iso: string, slot: Slot, citas: seq<Cita>, hasHandler: bool): (c: Cell)
    ensures c.booked <==> exists i :: 0 <= i < |citas| && Overlaps(slot, citas[i])
    ensures c.click.Some? <==> !c.booked && hasHandler
    ensures c.click.Some? ==> c.click.value == Draft(iso, slot.startMin, slot.endMin)
  {
    var isBooked := Booked(slot, citas);
    var clickable := !isBooked && hasHandler;
    Cell(isBooked, if clickable then Some(Draft(iso, slot.startMin, slot.endMin)) else None)
  }

  /** `citasSemana[iso] || []`: a day without an entry has no appointments. */
  function CitasOfDay(week: map<string, seq<Cita>>, iso: string): seq<Cita>
  {
    if iso in week then week[iso] else []
  }

  /** The row of one day: a cell per slot, from that day's appointments. */
  function DayRow(iso: string, slots: seq<Slot>, week: map<string, seq<Cita>>, hasHandler: bool): (row: seq<Cell>)
    ensures |row| == |slots|
    ensures forall k :: 0 <= k < |slots| ==> row[k] == CellFor(iso, slots[k], CitasOfDay(week, iso), hasHandler)
  {
    seq(|slots|, k requires 0 <= k < |slots| => CellFor(iso, slots[k], CitasOfDay(week, iso), hasHandler))
  }

  /** The grid body: one row per day of the window starting at `monday`,
      each keyed by its day's ISO date. */
  function WeekGrid(monday: LocalDateTime, slots: seq<Slot>, week: map<string, seq<Cita>>, hasHandler: bool): (rows: seq<seq<Cell>>)
    ensures |rows| == 7
  {
    seq(7, d requires 0 <= d < 7 => DayRow(ToISODate(GetWeekDays(monday)[d]), slots, week, hasHandler))
  }

  /** A cell of the week grid is booked exactly when an appointment stored
      under its own day's key overlaps its slot; since the seven keys are
      distinct, no day's appointments colour another day's row. */
  lemma WeekGridCell(monday: LocalDateTime, slots: seq<Slot>, week: map<string, seq<Cita>>,
                     hasHandler: bool, d: int, k: int)
    requires 0 <= d < 7 && 0 <= k < |slots|
    ensures |WeekGrid(monday, slots, week, hasHandler)[d]| == |slots|
    ensures var iso := ToISODate(AddDays(monday, d));
            WeekGrid(monday, slots, week, hasHandler)[d][k].booked
            <==> iso in week && exists i :: 0 <= i < |week[iso]| && Overlaps(slots[k], week[iso][i])
    ensures forall e :: 0 <= e < 7 && e != d ==>
              ToISODate(GetWeekDays(monday)[e]) != ToISODate(AddDays(monday, d))
  {
    var iso := ToISODate(AddDays(monday, d));
    assert GetWeekDays(monday)[d] == AddDays(monday, d);
    var row := DayRow(iso, slots, week, hasHandler);
    assert row[k] == CellFor(iso, slots[k], CitasOfDay(week, iso), hasHandler);
    forall e | 0 <= e < 7 && e != d
      ensures ToISODate(GetWeekDays(monday)[e]) != ToISODate(AddDays(monday, d))
    {
      WeekKeysDistinct(monday, e, d);
    }
  }

  /** The start and end strings confirmarAgendamiento builds from a draft:
      `${dayISO}T${minutesToHHMM(min)}:00`. */
  function DraftCita(d: Draft): Cita
  {
    Cita(d.dayISO + "T" + MinutesToHHMM(d.startMin) + ":00",
         d.dayISO + "T" + MinutesToHHMM(d.endMin) + ":00")
  }

  /** The appointment a clicked slot turns into books exactly that slot:
      once it is in the day's list the slot is occupied, and a slot that
      ends where it starts or starts where it ends stays free of it. */
  lemma DraftBooksItsSlot(day: LocalDateTime, slot: Slot, other: Slot)
    requires 1000 <= CivilFromDays(day.day).year <= 9999
    requires slot.startMin < slot.endMin < MinutesPerDay
    requires other.endMin <= slot.startMin || other.startMin >= slot.endMin
    ensures Overlaps(slot, DraftCita(Draft(ToISODate(day), slot.startMin, slot.endMin)))
    ensures !Overlaps(other, DraftCita(Draft(ToISODate(day), slot.startMin, slot.endMin)))
  {
    DraftStringRoundTrip(day, slot.startMin);
    DraftStringRoundTrip(day, slot.endMin);
  }

  /** With hourly slots from 09:00 to 18:00 and one appointment from 10:00
      to 11:30 on a valid date, exactly the 10:00 and 11:00 slots are
      occupied. */
  lemma OneAppointmentExample(date: string, day: int)
    requires |date| == 10 && ParseIsoDate(date) == Some(day)
    ensures forall k :: 0 <= k < 9 ==>
              (Booked(Grid(540, 1080, 60)[k], [Cita(date + "T10:00:00", date + "T11:30:00")])
               <==> k == 1 || k == 2)
  {
    var c := Cita(date + "T10:00:00", date + "T11:30:00");
    AppointmentMinutes(date, day);
    GridLength(540, 1080, 60);
    forall k | 0 <= k < 9
      ensures Booked(Grid(540, 1080, 60)[k], [c]) <==> k == 1 || k == 2
    {
      GridAt(540, 1080, 60, k);
      SingleBooking(Grid(540, 1080, 60)[k], c, 600, 690);
    }
  }

  lemma SingleBooking(slot: Slot, c: Cita, cStart: nat, cEnd: nat)
    requires IsoToMinutes(c.fechaHoraInicio) == Some(cStart) && IsoToMinutes(c.fechaHoraFin) == Some(cEnd)
    ensures Booked(slot, [c]) <==> slot.startMin < cEnd && cStart < slot.endMin
  {
    assert [c][0] == c;
  }

  lemma AppointmentMinutes(date: string, day: int)
    requires |date| == 10 && ParseIsoDate(date) == Some(day)
    ensures IsoToMinutes(date + "T10:00:00") == Some(600)
    ensures IsoToMinutes(date + "T11:30:00") == Some(690)
  {
    assert date + "T10:00:00" == date + "T" + "10:00" + ":00";
    assert date + "T11:30:00" == date + "T" + "11:30" + ":00";
    ParseLocalOfParts(date, day, "10:00");
    ParseLocalOfParts(date, day, "11:30");
  }
}
