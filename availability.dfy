/**
 * The availability resolver (`getAvailableTimes`): for a professional and a
 * calendar day, the day's candidate slots inside the professional's working
 * window, each flagged free or taken. Database reads are parameters: the
 * professionals table, the appointments table, the slot generator's output
 * and the server's UTC offset.
 */
module Availability {
  import opened Wrappers
  import opened Clock
  import opened Tables

  /** One slot of the answer: the `HH:MM:SS` value, whether it is free, and its `HH:MM` label. */
  datatype Entry = Entry(value: string, available: bool, labelText: string)

  /** Why the query fails. */
  datatype QueryError = Unauthorized | SalonNotFound | ProfessionalNotFound

  /** What the slot generator is taken to produce: well-formed `HH:MM:SS` strings. */
  predicate AllHms(slots: seq<string>)
  {
    forall s :: s in slots ==> IsHms(s)
  }

  /** Strictly increasing in JavaScript's string order, hence without duplicates. */
  predicate StrictlyIncreasing(xs: seq<string>)
  {
    forall i, j :: 0 <= i < j < |xs| ==> LexLt(xs[i], xs[j])
  }

  /** `xs` is `ys` with some elements left out, in the same order. */
  predicate IsSubsequence(xs: seq<string>, ys: seq<string>)
    decreases |ys|
  {
    xs == [] || (ys != [] && ((xs[0] == ys[0] && IsSubsequence(xs[1..], ys[1..])) || IsSubsequence(xs, ys[1..])))
  }

  /** The weekday (0 = Sunday) of a day counted from Thursday 1970-01-01. */
  function WeekDayOf(day: int): int
  {
    (day + 4) % 7
  }

  /**
   * The weekday gate: an inclusive, non-modular range test, so a range that
   * would wrap past Saturday admits no day at all.
   */
  predicate WorksOn(p: Professional, weekDay: int): (r: bool)
    ensures r ==> p.availableFromWeekDay <= p.availableToWeekDay
  {
    p.availableFromWeekDay <= weekDay && weekDay <= p.availableToWeekDay
  }

  /** An appointment of this professional on this calendar day (its status is not looked at). */
  predicate Occupies(a: Appointment, professionalId: string, day: int)
  {
    a.professionalId == professionalId && a.date.day == day
  }

  /** The `HH:mm:ss` times of the professional's appointments on the day. */
  function OccupiedTimes(appointments: seq<Appointment>, professionalId: string, day: int): (times: seq<string>)
    ensures forall t :: t in times <==>
              exists a :: a in appointments && Occupies(a, professionalId, day) && t == FormatTime(a.date.second)
  {
    if appointments == [] then []
    else
      var a := appointments[0];
      var rest := OccupiedTimes(appointments[1..], professionalId, day);
      assert appointments == [a] + appointments[1..];
      if Occupies(a, professionalId, day) then [FormatTime(a.date.second)] + rest else rest
  }

  /**
   * A stored bound's hour and minute set on a UTC clock with the seconds at 0
   * and read back on the server's local clock: the UTC offset shifts it round
   * the day.
   */
  function BoundMinute(bound: string, offsetMinutes: int): (r: MinuteOfDay)
    requires IsClockPrefix(bound)
    ensures (HourField(bound) * 60 + MinuteField(bound) + offsetMinutes - r) % 1440 == 0
    ensures offsetMinutes == 0 && HourField(bound) < 24 && MinuteField(bound) < 60 ==>
              r / 60 == HourField(bound) && r % 60 == MinuteField(bound)
  {
    (HourField(bound) * 60 + MinuteField(bound) + offsetMinutes) % 1440
  }

  /** A slot's hour and minute (its seconds are not used). */
  function SlotMinute(slot: string): MinuteOfDay
    requires IsHms(slot)
  {
    HourField(slot) * 60 + MinuteField(slot)
  }

  /** The `HH:mm:ss` string the window filter compares: a minute with the seconds at 0. */
  function MinuteKey(m: MinuteOfDay): string
  {
    FormatTime(m * 60)
  }

  /**
   * The window filter's test, as string comparisons inclusive at both ends;
   * it holds exactly when the slot's minute lies between the shifted bounds'
   * minutes.
   */
  predicate InWindow(slot: string, p: Professional, offsetMinutes: int): (r: bool)
    requires IsHms(slot) && HasClockBounds(p)
    ensures r <==> BoundMinute(p.availableFromTime, offsetMinutes) <= SlotMinute(slot) <= BoundMinute(p.availableToTime, offsetMinutes)
  {
    var lo, m, hi := BoundMinute(p.availableFromTime, offsetMinutes), SlotMinute(slot), BoundMinute(p.availableToTime, offsetMinutes);
    FormatTimeOrder(lo * 60, m * 60);
    FormatTimeOrder(m * 60, hi * 60);
    LexLe(MinuteKey(lo), MinuteKey(m)) && LexLe(MinuteKey(m), MinuteKey(hi))
  }

  /** The slots that pass the window filter. */
  function WindowSlots(slots: seq<string>, p: Professional, offsetMinutes: int): (kept: seq<string>)
    requires AllHms(slots) && HasClockBounds(p)
    ensures IsSubsequence(kept, slots)
    ensures forall s :: s in kept <==> s in slots && InWindow(s, p, offsetMinutes)
  {
    if slots == [] then []
    else
      var rest := WindowSlots(slots[1..], p, offsetMinutes);
      assert slots == [slots[0]] + slots[1..];
      if InWindow(slots[0], p, offsetMinutes) then
        assert ([slots[0]] + rest)[1..] == rest;
        [slots[0]] + rest
      else rest
  }

  /** `substring(0, 5)`: the first five characters, or all of a shorter string. */
  function Label(value: string): (l: string)
    ensures l <= value && |l| <= 5
    ensures |value| >= 5 ==> |l| == 5
  {
    if |value| <= 5 then value else value[..5]
  }

  /**
   * The annotation map: each kept slot, in order, with its label; an entry is
   * flagged free exactly when its value is not an occupied time.
   */
  function Annotate(kept: seq<string>, occupied: seq<string>): (entries: seq<Entry>)
    ensures Values(entries) == kept
    ensures forall e :: e in entries ==> (e.available <==> e.value !in occupied)
  {
    seq(|kept|, i requires 0 <= i < |kept| => Entry(kept[i], kept[i] !in occupied, Label(kept[i])))
  }

  /** The values of a list of entries. */
  function Values(entries: seq<Entry>): seq<string>
  {
    seq(|entries|, i requires 0 <= i < |entries| => entries[i].value)
  }

  /** The resolver once the professional is known: weekday gate, window filter, annotation. */
  function Resolve(p: Professional, day: int, appointments: seq<Appointment>, slots: seq<string>, offsetMinutes: int)
    : (entries: seq<Entry>)
    requires AllHms(slots) && HasClockBounds(p)
    ensures forall i :: 0 <= i < |entries| ==> entries[i].value in slots
  {
    if !WorksOn(p, WeekDayOf(day)) then []
    else Annotate(WindowSlots(slots, p, offsetMinutes), OccupiedTimes(appointments, p.id, day))
  }

  /** The position of the first professional with the id, or the table's length when there is none. */
  function FirstWithId(professionals: seq<Professional>, id: string): (k: nat)
    ensures k <= |professionals|
    ensures k < |professionals| ==> professionals[k].id == id
    ensures forall j :: 0 <= j < k ==> professionals[j].id != id
  {
    if professionals == [] || professionals[0].id == id then 0
    else 1 + FirstWithId(professionals[1..], id)
  }

  /** The first professional with the id (the lookup is by id only, not by salon). */
  function FindProfessional(professionals: seq<Professional>, id: string): (r: Option<Professional>)
    ensures r.None? <==> forall p :: p in professionals ==> p.id != id
    ensures r.Some? ==> r.value in professionals && r.value.id == id
    ensures r.Some? ==> exists i :: 0 <= i < |professionals| && professionals[i] == r.value
                                    && forall j :: 0 <= j < i ==> professionals[j].id != id
  {
    var k := FirstWithId(professionals, id);
    if k < |professionals| then Some(professionals[k]) else None
  }

  /**
   * `getAvailableTimes`: the session checks, the professional lookup, then the
   * resolver for the day's weekday.
   */
  function GetAvailableTimes(
    session: Session, professionals: seq<Professional>, appointments: seq<Appointment>,
    slots: seq<string>, offsetMinutes: int, professionalId: string, day: int)
    : (r: Result<seq<Entry>, QueryError>)
    requires AllHms(slots) && AllClockBounds(professionals)
    ensures session.None? ==> r == Failure(Unauthorized)
    ensures session.Some? && session.value.salon.None? ==> r == Failure(SalonNotFound)
    ensures session.Some? && session.value.salon.Some? ==>
              (r == Failure(ProfessionalNotFound) <==> forall p :: p in professionals ==> p.id != professionalId)
    ensures r.Success? ==>
              var found := FindProfessional(professionals, professionalId);
              found.Some? && r.value == Resolve(found.value, day, appointments, slots, offsetMinutes)
    ensures r.Success? ==> forall i :: 0 <= i < |r.value| ==> r.value[i].value in slots
  {
    if session.None? then Failure(Unauthorized)
    else if session.value.salon.None? then Failure(SalonNotFound)
    else
      match FindProfessional(professionals, professionalId)
      case None => Failure(ProfessionalNotFound)
      case Some(p) => Success(Resolve(p, day, appointments, slots, offsetMinutes))
  }

  // ---------------------------------------------------------------------
  // Properties of the resolver
  // ---------------------------------------------------------------------

  /** On a day outside the inclusive weekday range the answer is empty. */
  lemma NonWorkingDayIsEmpty(p: Professional, day: int, appointments: seq<Appointment>, slots: seq<string>, offsetMinutes: int)
    requires AllHms(slots) && HasClockBounds(p)
    requires !(p.availableFromWeekDay <= WeekDayOf(day) <= p.availableToWeekDay)
    ensures Resolve(p, day, appointments, slots, offsetMinutes) == []
  {
  }

  /** A range that would wrap past Saturday (from > to) yields nothing on any day. */
  lemma WrappedWeekRangeNeverWorks(p: Professional, day: int, appointments: seq<Appointment>, slots: seq<string>, offsetMinutes: int)
    requires AllHms(slots) && HasClockBounds(p)
    requires p.availableFromWeekDay > p.availableToWeekDay
    ensures Resolve(p, day, appointments, slots, offsetMinutes) == []
  {
  }

  /** Every member of a subsequence is a member of the whole. */
  lemma {:induction false} SubsequenceMembers(xs: seq<string>, ys: seq<string>)
    requires IsSubsequence(xs, ys)
    ensures forall x :: x in xs ==> x in ys
    decreases |ys|
  {
    if xs != [] {
      assert ys == [ys[0]] + ys[1..];
      if xs[0] == ys[0] && IsSubsequence(xs[1..], ys[1..]) {
        SubsequenceMembers(xs[1..], ys[1..]);
        assert xs == [xs[0]] + xs[1..];
      } else {
        SubsequenceMembers(xs, ys[1..]);
      }
    }
  }

  /** A subsequence of a strictly increasing list is strictly increasing. */
  lemma {:induction false} SubsequenceKeepsOrder(xs: seq<string>, ys: seq<string>)
    requires IsSubsequence(xs, ys) && StrictlyIncreasing(ys)
    ensures StrictlyIncreasing(xs)
    decreases |ys|
  {
    if xs != [] {
      assert StrictlyIncreasing(ys[1..]) by {
        forall i, j | 0 <= i < j < |ys[1..]| ensures LexLt(ys[1..][i], ys[1..][j]) {
          assert ys[1..][i] == ys[i + 1] && ys[1..][j] == ys[j + 1];
        }
      }
      if xs[0] == ys[0] && IsSubsequence(xs[1..], ys[1..]) {
        SubsequenceKeepsOrder(xs[1..], ys[1..]);
        SubsequenceMembers(xs[1..], ys[1..]);
        forall i, j | 0 <= i < j < |xs| ensures LexLt(xs[i], xs[j]) {
          if i == 0 {
            assert xs[j] == xs[1..][j - 1] && xs[1..][j - 1] in xs[1..];
            assert xs[j] in ys[1..];
            var k :| 0 <= k < |ys[1..]| && ys[1..][k] == xs[j];
            assert ys[k + 1] == xs[j];
          } else {
            assert xs[i] == xs[1..][i - 1] && xs[j] == xs[1..][j - 1];
          }
        }
      } else {
        SubsequenceKeepsOrder(xs, ys[1..]);
      }
    }
  }

  /**
   * The answer's values are the generated slots with some left out, in the
   * generator's order: nothing is reordered or invented, and when the
   * generator's slots strictly increase, so do the answer's (no duplicates).
   */
  lemma ResolvedSlotsAreOrderedSubsequence(p: Professional, day: int, appointments: seq<Appointment>, slots: seq<string>, offsetMinutes: int)
    requires AllHms(slots) && HasClockBounds(p)
    ensures IsSubsequence(Values(Resolve(p, day, appointments, slots, offsetMinutes)), slots)
    ensures StrictlyIncreasing(slots) ==> StrictlyIncreasing(Values(Resolve(p, day, appointments, slots, offsetMinutes)))
  {
    var entries := Resolve(p, day, appointments, slots, offsetMinutes);
    if WorksOn(p, WeekDayOf(day)) {
      assert Values(entries) == WindowSlots(slots, p, offsetMinutes);
    }
    if StrictlyIncreasing(slots) {
      SubsequenceKeepsOrder(Values(entries), slots);
    }
  }

  /**
   * On a working day a slot is in the answer exactly when it is generated and
   * its hour and minute lie between the bounds' hours and minutes, each
   * shifted by the server's UTC offset, inclusive at both ends.
   */
  lemma KeptIffInShiftedWindow(p: Professional, day: int, appointments: seq<Appointment>, slots: seq<string>, offsetMinutes: int, s: string)
    requires AllHms(slots) && HasClockBounds(p)
    ensures s in Values(Resolve(p, day, appointments, slots, offsetMinutes)) <==>
              WorksOn(p, WeekDayOf(day)) && s in slots
              && BoundMinute(p.availableFromTime, offsetMinutes) <= SlotMinute(s) <= BoundMinute(p.availableToTime, offsetMinutes)
  {
    var entries := Resolve(p, day, appointments, slots, offsetMinutes);
    if WorksOn(p, WeekDayOf(day)) {
      assert Values(entries) == WindowSlots(slots, p, offsetMinutes);
    }
  }

  /**
   * With a zero UTC offset, a generated slot with zero seconds is in the
   * answer of a working day exactly when `from(HH:MM:00) <= slot <= to(HH:MM:00)`
   * in string order; the stored bounds' seconds play no part.
   */
  lemma KeptIffInWindowWithoutOffset(p: Professional, day: int, appointments: seq<Appointment>, slots: seq<string>, s: string)
    requires AllHms(slots) && HasClockBounds(p)
    requires HourField(p.availableFromTime) < 24 && MinuteField(p.availableFromTime) < 60
    requires HourField(p.availableToTime) < 24 && MinuteField(p.availableToTime) < 60
    requires s in slots && s[6..] == "00"
    ensures s in Values(Resolve(p, day, appointments, slots, 0)) <==>
              WorksOn(p, WeekDayOf(day))
              && LexLe(p.availableFromTime[..5] + ":00", s) && LexLe(s, p.availableToTime[..5] + ":00")
  {
    KeptIffInShiftedWindow(p, day, appointments, slots, 0, s);
    var lo, hi := p.availableFromTime[..5] + ":00", p.availableToTime[..5] + ":00";
    BoundWithZeroSeconds(p.availableFromTime);
    BoundWithZeroSeconds(p.availableToTime);
    assert SecondsOf(s) == SlotMinute(s) * 60;
    LexOrderIsTimeOrder(lo, s);
    LexOrderIsTimeOrder(s, hi);
  }

  /** A bound's `HH:MM` with the seconds at 0 is the unshifted bound minute as `HH:MM:SS`. */
  lemma BoundWithZeroSeconds(bound: string)
    requires IsClockPrefix(bound) && HourField(bound) < 24 && MinuteField(bound) < 60
    ensures IsHms(bound[..5] + ":00") && SecondsOf(bound[..5] + ":00") == BoundMinute(bound, 0) * 60
  {
    var key := bound[..5] + ":00";
    assert key[0] == bound[0] && key[1] == bound[1] && key[3] == bound[3] && key[4] == bound[4];
    assert HourField(key) == HourField(bound) && MinuteField(key) == MinuteField(bound);
  }

  /** One entry per kept slot, in order: its label is the slot's first five characters, `HH:MM`. */
  lemma EntriesCarrySlotAndLabel(p: Professional, day: int, appointments: seq<Appointment>, slots: seq<string>, offsetMinutes: int)
    requires AllHms(slots) && HasClockBounds(p)
    ensures var entries := Resolve(p, day, appointments, slots, offsetMinutes);
            forall i :: 0 <= i < |entries| ==>
              entries[i].labelText == entries[i].value[..5] && entries[i].labelText[2] == ':'
              && |entries[i].labelText| == 5
  {
  }

  /**
   * A slot is flagged taken exactly when some appointment of this
   * professional on this calendar day formats to that very `HH:mm:ss`;
   * the appointment's status is not consulted.
   */
  lemma TakenIffBooked(p: Professional, day: int, appointments: seq<Appointment>, slots: seq<string>, offsetMinutes: int)
    requires AllHms(slots) && HasClockBounds(p)
    ensures var entries := Resolve(p, day, appointments, slots, offsetMinutes);
            forall i :: 0 <= i < |entries| ==>
              (!entries[i].available <==>
                 exists a :: a in appointments && Occupies(a, p.id, day) && FormatTime(a.date.second) == entries[i].value)
  {
  }

  /** One entry's flag: free exactly when no appointment of this professional on this day formats to its value. */
  lemma EntryFreeIff(p: Professional, day: int, appointments: seq<Appointment>, slots: seq<string>, offsetMinutes: int, i: int)
    requires AllHms(slots) && HasClockBounds(p)
    requires 0 <= i < |Resolve(p, day, appointments, slots, offsetMinutes)|
    ensures var e := Resolve(p, day, appointments, slots, offsetMinutes)[i];
            e.available <==>
              forall a :: a in appointments && Occupies(a, p.id, day) ==> FormatTime(a.date.second) != e.value
  {
    TakenIffBooked(p, day, appointments, slots, offsetMinutes);
  }

  /** Occupied slots are flagged, never removed: the slot list does not depend on the appointments. */
  lemma BookingsOnlyFlag(p: Professional, day: int, a1: seq<Appointment>, a2: seq<Appointment>, slots: seq<string>, offsetMinutes: int)
    requires AllHms(slots) && HasClockBounds(p)
    ensures Values(Resolve(p, day, a1, slots, offsetMinutes)) == Values(Resolve(p, day, a2, slots, offsetMinutes))
  {
  }

  /** Two appointment tables with the same appointments of this professional on this day give the same answer. */
  lemma OnlyOwnSameDayBookingsMatter(p: Professional, day: int, a1: seq<Appointment>, a2: seq<Appointment>, slots: seq<string>, offsetMinutes: int)
    requires AllHms(slots) && HasClockBounds(p)
    requires forall a :: a in a1 && Occupies(a, p.id, day) <==> a in a2 && Occupies(a, p.id, day)
    ensures Resolve(p, day, a1, slots, offsetMinutes) == Resolve(p, day, a2, slots, offsetMinutes)
  {
    var o1, o2 := OccupiedTimes(a1, p.id, day), OccupiedTimes(a2, p.id, day);
    assert forall t :: t in o1 <==> t in o2;
  }

  /** An appointment of another professional, or on another day, changes nothing. */
  lemma ForeignBookingIgnored(p: Professional, day: int, appointments: seq<Appointment>, x: Appointment, slots: seq<string>, offsetMinutes: int)
    requires AllHms(slots) && HasClockBounds(p)
    requires !Occupies(x, p.id, day)
    ensures Resolve(p, day, appointments + [x], slots, offsetMinutes) == Resolve(p, day, appointments, slots, offsetMinutes)
  {
    OnlyOwnSameDayBookingsMatter(p, day, appointments + [x], appointments, slots, offsetMinutes);
  }

  /** Changing appointments' statuses changes nothing: cancelled appointments still occupy their slot. */
  lemma StatusNeverConsulted(p: Professional, day: int, a1: seq<Appointment>, a2: seq<Appointment>, slots: seq<string>, offsetMinutes: int)
    requires AllHms(slots) && HasClockBounds(p)
    requires |a1| == |a2| && forall i :: 0 <= i < |a1| ==> a2[i] == a1[i].(status := a2[i].status)
    ensures Resolve(p, day, a1, slots, offsetMinutes) == Resolve(p, day, a2, slots, offsetMinutes)
  {
    forall a | a in a1 && Occupies(a, p.id, day)
      ensures exists b :: b in a2 && Occupies(b, p.id, day) && b.date == a.date
    {
      var i :| 0 <= i < |a1| && a1[i] == a;
      assert a2[i] in a2;
    }
    forall b | b in a2 && Occupies(b, p.id, day)
      ensures exists a :: a in a1 && Occupies(a, p.id, day) && b.date == a.date
    {
      var i :| 0 <= i < |a2| && a2[i] == b;
      assert a1[i] in a1;
    }
    var o1, o2 := OccupiedTimes(a1, p.id, day), OccupiedTimes(a2, p.id, day);
    assert forall t :: t in o1 <==> t in o2;
  }

  /**
   * Adding one appointment of this professional on this day flags its
   * formatted time taken and leaves every other entry as it was.
   */
  lemma NewBookingFlagsItsSlot(p: Professional, day: int, appointments: seq<Appointment>, x: Appointment, slots: seq<string>, offsetMinutes: int)
    requires AllHms(slots) && HasClockBounds(p)
    requires Occupies(x, p.id, day)
    ensures var before := Resolve(p, day, appointments, slots, offsetMinutes);
            var after := Resolve(p, day, appointments + [x], slots, offsetMinutes);
            |after| == |before|
            && forall i :: 0 <= i < |before| ==>
                 after[i] == before[i].(available := before[i].available && before[i].value != FormatTime(x.date.second))
  {
    var o1, o2 := OccupiedTimes(appointments, p.id, day), OccupiedTimes(appointments + [x], p.id, day);
    forall t ensures t in o2 <==> t in o1 || t == FormatTime(x.date.second) {
      if t in o2 {
        var a :| a in appointments + [x] && Occupies(a, p.id, day) && t == FormatTime(a.date.second);
        if a != x {
          assert a in appointments;
        }
      }
      if t in o1 {
        var a :| a in appointments && Occupies(a, p.id, day) && t == FormatTime(a.date.second);
        assert a in appointments + [x];
      }
      if t == FormatTime(x.date.second) {
        assert x in appointments + [x];
      }
    }
  }
}
