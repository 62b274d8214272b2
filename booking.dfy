/**
 * The booking gate (`addAgendamento`): validate the request, check the
 * session, ask the availability resolver for the requested day, accept only
 * a returned slot that is exactly the requested time and free, compose the
 * appointment's timestamp and append one appointment row.
 */
module Booking {
  import opened Wrappers
  import opened Clock
  import opened Tables
  import Availability
  import AgendamentoSchema

  /** Why a booking is rejected, in the order the gate checks. */
  datatype BookingError =
    | Invalid(issues: seq<AgendamentoSchema.Field>)
    | Unauthorized
    | SalonNotFound
    | NoAvailableTimes
    | TimeNotAvailable

  /** What the action reports: done, or the error it throws. */
  datatype Outcome = Pass | Fail(error: BookingError)

  /**
   * What the gate reads besides the request and the appointment table: the
   * professionals table, the slot generator's output, the server's UTC
   * offset in minutes, and the uuid format test.
   */
  datatype Context = Context(
    professionals: seq<Professional>,
    slots: seq<string>,
    offsetMinutes: int,
    isUuid: string -> bool)

  /** The generated slots are `HH:MM:SS` and every stored time bound starts `HH:MM`. */
  predicate WellFormed(ctx: Context)
  {
    Availability.AllHms(ctx.slots) && AllClockBounds(ctx.professionals)
  }

  /** The availability answer for a professional and a day, over the given appointment table. */
  function TimesFor(ctx: Context, session: Session, rows: seq<Appointment>, professionalId: string, day: int)
    : Result<seq<Availability.Entry>, Availability.QueryError>
    requires WellFormed(ctx)
  {
    Availability.GetAvailableTimes(session, ctx.professionals, rows, ctx.slots, ctx.offsetMinutes, professionalId, day)
  }

  /** The `some` test: some entry carries exactly the requested value and is free. */
  predicate IsTimeAvailable(entries: seq<Availability.Entry>, time: string): (r: bool)
    ensures r <==> exists e :: e in entries && e.value == time && e.available
  {
    exists i :: 0 <= i < |entries| && entries[i].value == time && entries[i].available
  }

  /**
   * The input date with its hour and minute replaced by the leading fields
   * of `time`; the day and the seconds of the date are kept.
   */
  function ComposeDateTime(date: Instant, time: string): (at: Instant)
    requires IsHms(time)
    ensures at.day == date.day
    ensures at.second / 3600 == HourField(time) && at.second / 60 % 60 == MinuteField(time)
    ensures at.second % 60 == date.second % 60
    ensures FormatTime(at.second) == time <==> Field(time, 6) == date.second % 60
  {
    var h, m, s := HourField(time), MinuteField(time), date.second % 60;
    JoinSeconds(h, m, s);
    var at := Instant(date.day, h * 3600 + m * 60 + s);
    assert FormatTime(at.second) == time <==> SecondsOf(time) == at.second by {
      FormatSecondsOf(time);
    }
    at
  }

  /**
   * The row an accepted request inserts: an appointment of the requested
   * professional on the requested day, carrying the time string, stored at
   * that time's hour and minute with the date's seconds.
   */
  function NewRow(input: AgendamentoSchema.Input, salonId: string, newId: string, now: Instant): (x: Appointment)
    requires input.date.Some? && IsHms(input.time)
    requires input.status.Some? ==> AgendamentoSchema.IsStatusName(input.status.value)
    ensures Availability.Occupies(x, input.professionalId, input.date.value.day)
    ensures x.time == input.time && x.salonId == salonId && x.id == newId
    ensures input.status.None? ==> x.status == Confirmado
    ensures FormatTime(x.date.second) == input.time <==> Field(input.time, 6) == input.date.value.second % 60
  {
    Appointment(
      id := newId,
      clientId := input.clientId,
      professionalId := input.professionalId,
      date := ComposeDateTime(input.date.value, input.time),
      appointmentPriceInCents := input.agendamentoPriceInCents,
      salonId := salonId,
      time := input.time,
      status := AgendamentoSchema.StoredStatus(input.status),
      createdAt := now,
      updatedAt := now)
  }

  /** A request the schema accepts has a date and a valid status, if any. */
  lemma ValidInputShape(input: AgendamentoSchema.Input, isUuid: string -> bool)
    requires AgendamentoSchema.Issues(input, isUuid) == []
    ensures input.date.Some?
    ensures input.status.Some? ==> AgendamentoSchema.IsStatusName(input.status.value)
  {
    AgendamentoSchema.AcceptedIff(input, isUuid);
  }

  /** A time some answer entry carries is one of the generated slots, hence `HH:MM:SS`. */
  lemma AvailableTimeIsSlot(ctx: Context, session: Session, rows: seq<Appointment>, professionalId: string, day: int, time: string)
    requires WellFormed(ctx)
    requires TimesFor(ctx, session, rows, professionalId, day).Success?
    requires IsTimeAvailable(TimesFor(ctx, session, rows, professionalId, day).value, time)
    ensures time in ctx.slots && IsHms(time)
  {
    var entries := TimesFor(ctx, session, rows, professionalId, day).value;
    var i :| 0 <= i < |entries| && entries[i].value == time && entries[i].available;
    assert entries[i].value in ctx.slots;
  }

  /**
   * The gate's decision: the row to append, or the error the action throws,
   * checked in the action's order.
   */
  function Decide(ctx: Context, session: Session, rows: seq<Appointment>, input: AgendamentoSchema.Input, newId: string, now: Instant)
    : (r: Result<Appointment, BookingError>)
    requires WellFormed(ctx)
    ensures (r.Failure? && r.error.Invalid?) <==> AgendamentoSchema.Issues(input, ctx.isUuid) != []
    ensures r.Failure? && r.error.Invalid? ==> r.error.issues != []
    ensures r.Success? ==>
              session.Some? && session.value.salon.Some? && session.value.salon.value.id != ""
              && input.date.Some? && input.time in ctx.slots
              && Availability.Occupies(r.value, input.professionalId, input.date.value.day)
  {
    var issues := AgendamentoSchema.Issues(input, ctx.isUuid);
    if issues != [] then Failure(Invalid(issues))
    else if session.None? then Failure(Unauthorized)
    else if session.value.salon.None? || session.value.salon.value.id == "" then Failure(SalonNotFound)
    else
      ValidInputShape(input, ctx.isUuid);
      var times := TimesFor(ctx, session, rows, input.professionalId, input.date.value.day);
      if times.Failure? then Failure(NoAvailableTimes)
      else if !IsTimeAvailable(times.value, input.time) then Failure(TimeNotAvailable)
      else
        AvailableTimeIsSlot(ctx, session, rows, input.professionalId, input.date.value.day, input.time);
        Success(NewRow(input, session.value.salon.value.id, newId, now))
  }

  /** The appointment table the gate appends to. */
  class AppointmentTable {
    var rows: seq<Appointment>

    constructor(initial: seq<Appointment>)
      ensures rows == initial
    {
      rows := initial;
    }

    /**
     * `addAgendamento`: every rejection happens before the insert and leaves
     * the table as it was; an accepted request appends exactly one row.
     */
    method AddAgendamento(ctx: Context, session: Session, input: AgendamentoSchema.Input, newId: string, now: Instant)
      returns (outcome: Outcome)
      requires WellFormed(ctx)
      modifies this
      ensures var d := Decide(ctx, session, old(rows), input, newId, now);
              (d.Success? ==> outcome == Pass && rows == old(rows) + [d.value])
              && (d.Failure? ==> outcome == Fail(d.error) && rows == old(rows))
    {
      var issues := AgendamentoSchema.Issues(input, ctx.isUuid);
      if issues != [] {
        return Fail(Invalid(issues));
      }
      if session.None? {
        return Fail(Unauthorized);
      }
      if session.value.salon.None? || session.value.salon.value.id == "" {
        return Fail(SalonNotFound);
      }
      ValidInputShape(input, ctx.isUuid);
      var availableTimes := TimesFor(ctx, session, rows, input.professionalId, input.date.value.day);
      if availableTimes.Failure? {
        return Fail(NoAvailableTimes);
      }
      if !IsTimeAvailable(availableTimes.value, input.time) {
        return Fail(TimeNotAvailable);
      }
      AvailableTimeIsSlot(ctx, session, rows, input.professionalId, input.date.value.day, input.time);
      var row := NewRow(input, session.value.salon.value.id, newId, now);
      rows := rows + [row];
      return Pass;
    }
  }

  // ---------------------------------------------------------------------
  // Properties of the gate
  // ---------------------------------------------------------------------

  /**
   * The session checks come before availability is consulted: with no
   * session, or no salon id, the answer does not depend on the tables.
   */
  lemma SessionChecksFirst(ctx: Context, session: Session, rows: seq<Appointment>, input: AgendamentoSchema.Input, newId: string, now: Instant)
    requires WellFormed(ctx)
    requires AgendamentoSchema.Issues(input, ctx.isUuid) == []
    ensures session.None? ==> Decide(ctx, session, rows, input, newId, now) == Failure(Unauthorized)
    ensures session.Some? && (session.value.salon.None? || session.value.salon.value.id == "") ==>
              Decide(ctx, session, rows, input, newId, now) == Failure(SalonNotFound)
  {
  }

  /** An unknown professional makes the availability call fail: "No available times". */
  lemma UnknownProfessionalHasNoTimes(ctx: Context, session: Session, rows: seq<Appointment>, input: AgendamentoSchema.Input, newId: string, now: Instant)
    requires WellFormed(ctx)
    requires AgendamentoSchema.Issues(input, ctx.isUuid) == []
    requires session.Some? && session.value.salon.Some? && session.value.salon.value.id != ""
    requires forall p :: p in ctx.professionals ==> p.id != input.professionalId
    ensures Decide(ctx, session, rows, input, newId, now) == Failure(NoAvailableTimes)
  {
    ValidInputShape(input, ctx.isUuid);
  }

  /**
   * On a day the professional does not work the resolver answers `[]`,
   * which is data, so the rejection is "Time not available".
   */
  lemma NonWorkingDayIsTimeNotAvailable(ctx: Context, session: Session, rows: seq<Appointment>, input: AgendamentoSchema.Input, newId: string, now: Instant)
    requires WellFormed(ctx)
    requires AgendamentoSchema.Issues(input, ctx.isUuid) == []
    requires session.Some? && session.value.salon.Some? && session.value.salon.value.id != ""
    requires input.date.Some?
    requires exists p :: p in ctx.professionals && p.id == input.professionalId
    requires forall p :: p in ctx.professionals && p.id == input.professionalId ==>
               !Availability.WorksOn(p, Availability.WeekDayOf(input.date.value.day))
    ensures Decide(ctx, session, rows, input, newId, now) == Failure(TimeNotAvailable)
  {
    var times := TimesFor(ctx, session, rows, input.professionalId, input.date.value.day);
    var found := Availability.FindProfessional(ctx.professionals, input.professionalId);
    assert found.Some?;
    assert times.value == [];
  }

  /**
   * A valid request from a session with a salon id, for a professional who
   * is found, is rejected with "Time not available" when the requested time
   * is not a free generated slot of the professional's shifted window on a
   * working day: a taken slot, a slot outside the window, a time that is no
   * slot, or a day the professional does not work.
   */
  lemma NotFreeSlotIsTimeNotAvailable(ctx: Context, session: Session, rows: seq<Appointment>, input: AgendamentoSchema.Input, newId: string, now: Instant)
    requires WellFormed(ctx)
    requires AgendamentoSchema.Issues(input, ctx.isUuid) == [] && input.date.Some?
    requires session.Some? && session.value.salon.Some? && session.value.salon.value.id != ""
    requires Availability.FindProfessional(ctx.professionals, input.professionalId).Some?
    requires !IsFreeSlot(ctx, Availability.FindProfessional(ctx.professionals, input.professionalId).value,
                         input.date.value.day, rows, input.time)
    ensures Decide(ctx, session, rows, input, newId, now) == Failure(TimeNotAvailable)
  {
    var p := Availability.FindProfessional(ctx.professionals, input.professionalId).value;
    AvailableIffFreeInWindow(p, input.date.value.day, rows, ctx.slots, ctx.offsetMinutes, input.time);
  }

  /**
   * The `some` test on a resolver answer: the requested time is available
   * exactly when the professional works that weekday, it is a generated
   * slot inside the shifted window, and no appointment of the professional
   * on that day formats to it.
   */
  lemma AvailableIffFreeInWindow(p: Professional, day: int, rows: seq<Appointment>, slots: seq<string>, offsetMinutes: int, time: string)
    requires Availability.AllHms(slots) && HasClockBounds(p)
    ensures IsTimeAvailable(Availability.Resolve(p, day, rows, slots, offsetMinutes), time) <==>
              Availability.WorksOn(p, Availability.WeekDayOf(day)) && time in slots
              && Availability.BoundMinute(p.availableFromTime, offsetMinutes) <= Availability.SlotMinute(time)
                   <= Availability.BoundMinute(p.availableToTime, offsetMinutes)
              && forall a :: a in rows && Availability.Occupies(a, p.id, day) ==> FormatTime(a.date.second) != time
  {
    Availability.KeptIffInShiftedWindow(p, day, rows, slots, offsetMinutes, time);
    var entries := Availability.Resolve(p, day, rows, slots, offsetMinutes);
    if IsTimeAvailable(entries, time) {
      AvailableOnlyIfFree(p, day, rows, slots, offsetMinutes, time);
    }
    if time in Availability.Values(entries) {
      FreeIsAvailable(p, day, rows, slots, offsetMinutes, time);
    }
  }

  /** An available time is a kept slot that no appointment of the professional on the day formats to. */
  lemma AvailableOnlyIfFree(p: Professional, day: int, rows: seq<Appointment>, slots: seq<string>, offsetMinutes: int, time: string)
    requires Availability.AllHms(slots) && HasClockBounds(p)
    requires IsTimeAvailable(Availability.Resolve(p, day, rows, slots, offsetMinutes), time)
    ensures time in Availability.Values(Availability.Resolve(p, day, rows, slots, offsetMinutes))
    ensures forall a :: a in rows && Availability.Occupies(a, p.id, day) ==> FormatTime(a.date.second) != time
  {
    var entries := Availability.Resolve(p, day, rows, slots, offsetMinutes);
    var i :| 0 <= i < |entries| && entries[i].value == time && entries[i].available;
    assert Availability.Values(entries)[i] == time;
    Availability.EntryFreeIff(p, day, rows, slots, offsetMinutes, i);
  }

  /** A kept slot that no appointment of the professional on the day formats to is available. */
  lemma FreeIsAvailable(p: Professional, day: int, rows: seq<Appointment>, slots: seq<string>, offsetMinutes: int, time: string)
    requires Availability.AllHms(slots) && HasClockBounds(p)
    requires time in Availability.Values(Availability.Resolve(p, day, rows, slots, offsetMinutes))
    ensures (forall a :: a in rows && Availability.Occupies(a, p.id, day) ==> FormatTime(a.date.second) != time)
            ==> IsTimeAvailable(Availability.Resolve(p, day, rows, slots, offsetMinutes), time)
  {
    var entries := Availability.Resolve(p, day, rows, slots, offsetMinutes);
    var values := Availability.Values(entries);
    var i :| 0 <= i < |values| && values[i] == time;
    Availability.EntryFreeIff(p, day, rows, slots, offsetMinutes, i);
    assert entries[i].value == time;
  }

  /**
   * A booking is accepted exactly when the request is valid, the session
   * has a salon id, the professional is found (first row with the id, any
   * salon), and the requested time is a free generated slot in the
   * professional's shifted window on a working day.
   */
  lemma AcceptedIff(ctx: Context, session: Session, rows: seq<Appointment>, input: AgendamentoSchema.Input, newId: string, now: Instant)
    requires WellFormed(ctx)
    ensures Decide(ctx, session, rows, input, newId, now).Success? <==>
              AgendamentoSchema.Issues(input, ctx.isUuid) == [] && input.date.Some?
              && session.Some? && session.value.salon.Some? && session.value.salon.value.id != ""
              && var found := Availability.FindProfessional(ctx.professionals, input.professionalId);
                 found.Some? && IsFreeSlot(ctx, found.value, input.date.value.day, rows, input.time)
  {
    if AgendamentoSchema.Issues(input, ctx.isUuid) == [] && session.Some? && session.value.salon.Some?
       && session.value.salon.value.id != ""
    {
      ValidInputShape(input, ctx.isUuid);
      var day := input.date.value.day;
      var found := Availability.FindProfessional(ctx.professionals, input.professionalId);
      var times := TimesFor(ctx, session, rows, input.professionalId, day);
      if found.Some? {
        AvailableIffFreeInWindow(found.value, day, rows, ctx.slots, ctx.offsetMinutes, input.time);
        assert times == Success(Availability.Resolve(found.value, day, rows, ctx.slots, ctx.offsetMinutes));
      } else {
        assert times.Failure?;
      }
    }
  }

  /** The requested time is a free generated slot of `p`'s shifted window on a working day. */
  predicate IsFreeSlot(ctx: Context, p: Professional, day: int, rows: seq<Appointment>, time: string)
    requires WellFormed(ctx) && HasClockBounds(p)
  {
    Availability.WorksOn(p, Availability.WeekDayOf(day)) && time in ctx.slots
    && Availability.BoundMinute(p.availableFromTime, ctx.offsetMinutes) <= Availability.SlotMinute(time)
         <= Availability.BoundMinute(p.availableToTime, ctx.offsetMinutes)
    && forall a :: a in rows && Availability.Occupies(a, p.id, day) ==> FormatTime(a.date.second) != time
  }

  /**
   * The row an accepted booking appends: the request's client, professional,
   * price and time string, the session's salon, the given status or
   * `confirmado`, and a timestamp on the requested day whose hour and minute
   * are those of the time and whose seconds are the date's.
   */
  lemma AcceptedRow(ctx: Context, session: Session, rows: seq<Appointment>, input: AgendamentoSchema.Input, newId: string, now: Instant)
    requires WellFormed(ctx)
    requires Decide(ctx, session, rows, input, newId, now).Success?
    ensures input.date.Some? && IsHms(input.time) && session.Some? && session.value.salon.Some?
    ensures var x := Decide(ctx, session, rows, input, newId, now).value;
            x.id == newId && x.clientId == input.clientId && x.professionalId == input.professionalId
            && x.appointmentPriceInCents == input.agendamentoPriceInCents
            && x.salonId == session.value.salon.value.id && x.time == input.time
            && (input.status.None? ==> x.status == Confirmado)
            && (input.status.Some? ==> (x.status == Cancelado <==> input.status.value == "cancelado"))
            && x.date.day == input.date.value.day
            && x.date.second / 3600 == HourField(input.time) && x.date.second / 60 % 60 == MinuteField(input.time)
            && x.date.second % 60 == input.date.value.second % 60
            && x.createdAt == now && x.updatedAt == now
            && (FormatTime(x.date.second) == input.time <==> Field(input.time, 6) == input.date.value.second % 60)
  {
    ValidInputShape(input, ctx.isUuid);
    AvailableTimeIsSlot(ctx, session, rows, input.professionalId, input.date.value.day, input.time);
  }

  /**
   * An accepted booking was checked against the answer for the requested
   * professional and day over the table as it was, and the time was free in it.
   */
  lemma AcceptedTimeWasFree(ctx: Context, session: Session, rows: seq<Appointment>, input: AgendamentoSchema.Input, newId: string, now: Instant)
    requires WellFormed(ctx)
    requires Decide(ctx, session, rows, input, newId, now).Success?
    ensures input.date.Some?
    ensures var times := TimesFor(ctx, session, rows, input.professionalId, input.date.value.day);
            times.Success? && IsTimeAvailable(times.value, input.time)
  {
    ValidInputShape(input, ctx.isUuid);
  }

  /**
   * Appending a row to the table and asking again for its professional and
   * day yields the same slots, each free exactly when it was free before and
   * is not the row's formatted time; a time that was available stays
   * available exactly when it is not the row's formatted time.
   */
  lemma AppendedRowFlagsItsTime(ctx: Context, session: Session, rows: seq<Appointment>, x: Appointment, time: string)
    requires WellFormed(ctx)
    requires TimesFor(ctx, session, rows, x.professionalId, x.date.day).Success?
    ensures var before := TimesFor(ctx, session, rows, x.professionalId, x.date.day).value;
            var after := TimesFor(ctx, session, rows + [x], x.professionalId, x.date.day);
            after.Success? && |after.value| == |before|
            && (forall i :: 0 <= i < |before| ==>
                  after.value[i].value == before[i].value
                  && (after.value[i].available <==> before[i].available && before[i].value != FormatTime(x.date.second)))
            && (IsTimeAvailable(before, time) ==> (IsTimeAvailable(after.value, time) <==> time != FormatTime(x.date.second)))
  {
    var before := TimesFor(ctx, session, rows, x.professionalId, x.date.day).value;
    var after := TimesFor(ctx, session, rows + [x], x.professionalId, x.date.day);
    var p := Availability.FindProfessional(ctx.professionals, x.professionalId).value;
    assert before == Availability.Resolve(p, x.date.day, rows, ctx.slots, ctx.offsetMinutes);
    assert after.value == Availability.Resolve(p, x.date.day, rows + [x], ctx.slots, ctx.offsetMinutes);
    Availability.NewBookingFlagsItsSlot(p, x.date.day, rows, x, ctx.slots, ctx.offsetMinutes);
    FlaggedAnswerAvailability(before, after.value, FormatTime(x.date.second), time);
  }

  /**
   * When an answer is the old one with the entries of one value flagged
   * taken, a time available in the old answer is available in the new one
   * exactly when it is not that value.
   */
  lemma FlaggedAnswerAvailability(before: seq<Availability.Entry>, after: seq<Availability.Entry>, taken: string, time: string)
    requires |after| == |before|
    requires forall i :: 0 <= i < |before| ==>
               after[i].value == before[i].value && (after[i].available <==> before[i].available && before[i].value != taken)
    ensures IsTimeAvailable(before, time) ==> (IsTimeAvailable(after, time) <==> time != taken)
  {
    if IsTimeAvailable(before, time) && time != taken {
      var i :| 0 <= i < |before| && before[i].value == time && before[i].available;
      assert after[i].value == time && after[i].available;
    }
  }

  /**
   * Round trip: after an accepted booking, asking again for the same
   * professional and day still answers, and the requested time is no longer
   * available, unless the time's seconds differ from the date's seconds (the
   * row is stored at the date's seconds, so it then formats to another string).
   */
  lemma BookingTakesItsSlot(ctx: Context, session: Session, rows: seq<Appointment>, input: AgendamentoSchema.Input, newId: string, now: Instant, x: Appointment)
    requires WellFormed(ctx)
    requires Decide(ctx, session, rows, input, newId, now) == Success(x)
    ensures input.date.Some? && IsHms(input.time)
    ensures var after := TimesFor(ctx, session, rows + [x], input.professionalId, input.date.value.day);
            after.Success? && (IsTimeAvailable(after.value, input.time) <==> SecondsOf(input.time) % 60 != input.date.value.second % 60)
  {
    SecondsOfField(input.time);
    AcceptedRow(ctx, session, rows, input, newId, now);
    AcceptedTimeWasFree(ctx, session, rows, input, newId, now);
    AppendedRowFlagsItsTime(ctx, session, rows, x, input.time);
  }

  /**
   * Booking the same request again, one after the other, is rejected with
   * "Time not available" when the time's seconds match the date's (as with
   * slots on whole minutes and dates at midnight). This is a sequential
   * property only: two concurrent requests can both pass the availability test.
   */
  lemma RepeatedBookingRejected(ctx: Context, session: Session, rows: seq<Appointment>, input: AgendamentoSchema.Input, newId: string, now: Instant, x: Appointment, otherId: string, later: Instant)
    requires WellFormed(ctx)
    requires input.date.Some? && IsHms(input.time) && SecondsOf(input.time) % 60 == input.date.value.second % 60
    requires Decide(ctx, session, rows, input, newId, now) == Success(x)
    ensures Decide(ctx, session, rows + [x], input, otherId, later) == Failure(TimeNotAvailable)
  {
    BookingTakesItsSlot(ctx, session, rows, input, newId, now, x);
  }
}
