/**
 * The rows the availability engine and the booking gate read and write,
 * shaped as the booking insert writes them, and the caller's session.
 */
module Tables {
  import opened Wrappers
  import opened Clock

  /** An appointment's status: confirmed or cancelled. */
  datatype Status = Confirmado | Cancelado

  /**
   * A timestamp on the server's local wall clock: the calendar day (days
   * since 1970-01-01, a Thursday) and the second of that day.
   */
  datatype Instant = Instant(day: int, second: SecondOfDay)

  /**
   * A professional row. The weekday bounds are plain integers (0 = Sunday);
   * the time bounds are the strings the `time` column yields, `HH:MM:SS`.
   */
  datatype Professional = Professional(
    id: string,
    salonId: string,
    name: string,
    availableFromWeekDay: int,
    availableToWeekDay: int,
    availableFromTime: string,
    availableToTime: string,
    specialty: string,
    appointmentPriceInCents: int)

  /** An appointment row, with the columns the booking insert fills. */
  datatype Appointment = Appointment(
    id: string,
    clientId: string,
    professionalId: string,
    date: Instant,
    appointmentPriceInCents: int,
    salonId: string,
    time: string,
    status: Status,
    createdAt: Instant,
    updatedAt: Instant)

  /** The salon a signed-in user belongs to. */
  datatype SalonRef = SalonRef(id: string)

  /** The signed-in user, with the salon attached to the session, if any. */
  datatype User = User(salon: Option<SalonRef>)

  /** The request's session: absent when nobody is signed in. */
  type Session = Option<User>

  /** Every stored time bound starts `HH:MM`, as the `time` column guarantees. */
  predicate HasClockBounds(p: Professional)
  {
    IsClockPrefix(p.availableFromTime) && IsClockPrefix(p.availableToTime)
  }

  predicate AllClockBounds(professionals: seq<Professional>)
  {
    forall p :: p in professionals ==> HasClockBounds(p)
  }
}
