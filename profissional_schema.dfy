/**
 * The professional form's input schema (`upsertProfissionalSchema`): field
 * constraints, then the refinement that the start time is before the end
 * time. The uuid and e-mail format tests are parameters, `isUuid` and
 * `isEmail`.
 */
module ProfissionalSchema {
  import opened Wrappers
  import opened Clock

  /** The field an issue is reported against. */
  datatype Field =
    | Id | Name | Email | Phone | Speciality | AppointmentPriceInCents
    | AvailableFromWeekDay | AvailableToWeekDay | AvailableFromTime | AvailableToTime

  /** The professional form as submitted; `id` is absent when creating. */
  datatype Input = Input(
    id: Option<string>,
    name: string,
    email: string,
    phone: string,
    speciality: string,
    appointmentPriceInCents: int,
    availableFromWeekDay: int,
    availableToWeekDay: int,
    availableFromTime: string,
    availableToTime: string)

  /** The characters JavaScript's `trim()` removes: white space and line terminators. */
  predicate IsWhitespace(c: char)
  {
    c == '\t' || c == '\n' || c == '\U{000B}' || c == '\U{000C}' || c == '\r' || c == ' '
    || c == '\U{00A0}' || c == '\U{1680}' || ('\U{2000}' <= c <= '\U{200A}')
    || c == '\U{2028}' || c == '\U{2029}' || c == '\U{202F}' || c == '\U{205F}'
    || c == '\U{3000}' || c == '\U{FEFF}'
  }

  /** `s` without its leading white space. */
  function TrimStart(s: string): (t: string)
    ensures |t| <= |s| && t == s[|s| - |t|..]
    ensures forall i :: 0 <= i < |s| - |t| ==> IsWhitespace(s[i])
    ensures t != [] ==> !IsWhitespace(t[0])
  {
    if s != [] && IsWhitespace(s[0]) then
      var t := TrimStart(s[1..]);
      assert forall i :: 1 <= i < |s| - |t| ==> s[i] == s[1..][i - 1];
      t
    else
      s
  }

  /** `s` without its trailing white space. */
  function TrimEnd(s: string): (t: string)
    ensures |t| <= |s| && t == s[..|t|]
    ensures forall i :: |t| <= i < |s| ==> IsWhitespace(s[i])
    ensures t != [] ==> !IsWhitespace(t[|t| - 1])
  {
    if s != [] && IsWhitespace(s[|s| - 1]) then
      var t := TrimEnd(s[..|s| - 1]);
      assert forall i :: |t| <= i < |s| - 1 ==> s[i] == s[..|s| - 1][i];
      t
    else
      s
  }

  /**
   * JavaScript's `trim()`: the part of `s` between its leading and trailing
   * white space, which neither starts nor ends with white space, and is
   * empty exactly when `s` is all white space.
   */
  function Trim(s: string): (t: string)
    ensures |t| <= |s|
    ensures t != [] ==> !IsWhitespace(t[0]) && !IsWhitespace(t[|t| - 1])
    ensures t == [] <==> !HasNonWhitespace(s)
  {
    var u := TrimStart(s);
    var t := TrimEnd(u);
    var k := |s| - |u|;
    assert t == [] <==> !HasNonWhitespace(s) by {
      if t == [] {
        assert u == [];
      } else {
        assert u[0] == t[0] && u[0] == s[k];
      }
    }
    t
  }

  /** Some character of `s` is not white space. */
  predicate HasNonWhitespace(s: string)
  {
    exists i :: 0 <= i < |s| && !IsWhitespace(s[i])
  }

  /** The form's fields in declaration order, the order in which their issues are reported. */
  const Declared: seq<Field> := [
    Id, Name, Email, Phone, Speciality, AppointmentPriceInCents,
    AvailableFromWeekDay, AvailableToWeekDay, AvailableFromTime, AvailableToTime]

  /**
   * One field's own constraint. A trimmed field's `.trim().min(1)` is written
   * as "some character is not white space", which `Trim`'s contract shows is
   * the same test.
   */
  predicate FieldOk(input: Input, field: Field, isUuid: string -> bool, isEmail: string -> bool)
  {
    match field
    case Id => input.id.None? || isUuid(input.id.value)
    case Name => HasNonWhitespace(input.name)
    case Email => isEmail(input.email)
    case Phone => HasNonWhitespace(input.phone)
    case Speciality => HasNonWhitespace(input.speciality)
    case AppointmentPriceInCents => input.appointmentPriceInCents >= 1
    case AvailableFromWeekDay => 0 <= input.availableFromWeekDay <= 6
    case AvailableToWeekDay => 0 <= input.availableToWeekDay <= 6
    case AvailableFromTime => |input.availableFromTime| >= 1
    case AvailableToTime => |input.availableToTime| >= 1
  }

  /** The fields of `fields` whose constraint fails, in order. */
  function Failing(fields: seq<Field>, input: Input, isUuid: string -> bool, isEmail: string -> bool)
    : (failing: seq<Field>)
    ensures forall f :: f in failing <==> f in fields && !FieldOk(input, f, isUuid, isEmail)
    ensures |failing| <= |fields|
  {
    if fields == [] then []
    else
      var rest := Failing(fields[1..], input, isUuid, isEmail);
      assert fields == [fields[0]] + fields[1..];
      if FieldOk(input, fields[0], isUuid, isEmail) then rest else [fields[0]] + rest
  }

  /**
   * The issues the schema reports: the failing fields in declaration order,
   * then the refinement's issue, reported on `availableToTime`, when the
   * start time is not before the end time; empty means accepted.
   */
  function Issues(input: Input, isUuid: string -> bool, isEmail: string -> bool): (issues: seq<Field>)
    ensures forall f :: f != AvailableToTime ==> (f in issues <==> !FieldOk(input, f, isUuid, isEmail))
    ensures AvailableToTime in issues <==>
              input.availableToTime == [] || !LexLt(input.availableFromTime, input.availableToTime)
    ensures !LexLt(input.availableFromTime, input.availableToTime) ==> issues[|issues| - 1] == AvailableToTime
  {
    var fieldIssues := Failing(Declared, input, isUuid, isEmail);
    if LexLt(input.availableFromTime, input.availableToTime) then fieldIssues
    else fieldIssues + [AvailableToTime]
  }

  /** Every field is declared. */
  lemma Declares(f: Field)
    ensures f in Declared
  {
  }

  /** The schema accepts exactly when every field's constraint holds and the start time is before the end time. */
  lemma NoIssuesIff(input: Input, isUuid: string -> bool, isEmail: string -> bool)
    ensures Issues(input, isUuid, isEmail) == [] <==>
              (forall f :: FieldOk(input, f, isUuid, isEmail)) && LexLt(input.availableFromTime, input.availableToTime)
  {
    var issues := Issues(input, isUuid, isEmail);
    if issues != [] {
      assert issues[0] in issues;
    } else {
      forall f ensures FieldOk(input, f, isUuid, isEmail) {
        Declares(f);
      }
    }
  }

  /**
   * The schema accepts exactly when the id, if given, is a uuid; name, phone
   * and speciality keep at least one character once trimmed; the e-mail is
   * an e-mail; the price is at least 1; both weekdays lie in 0..6; both times
   * are non-empty; and the start time is before the end time in string order.
   */
  lemma AcceptedIff(input: Input, isUuid: string -> bool, isEmail: string -> bool)
    ensures Issues(input, isUuid, isEmail) == [] <==>
              (input.id.None? || isUuid(input.id.value))
              && |Trim(input.name)| >= 1 && isEmail(input.email)
              && |Trim(input.phone)| >= 1 && |Trim(input.speciality)| >= 1
              && input.appointmentPriceInCents >= 1
              && 0 <= input.availableFromWeekDay <= 6 && 0 <= input.availableToWeekDay <= 6
              && |input.availableFromTime| >= 1 && |input.availableToTime| >= 1
              && LexLt(input.availableFromTime, input.availableToTime)
  {
    NoIssuesIff(input, isUuid, isEmail);
    FieldsOkIff(input, isUuid, isEmail);
    FieldsWrittenOut(input, isUuid, isEmail, forall f :: FieldOk(input, f, isUuid, isEmail));
  }

  /** The conjunction of the ten field constraints, each written out. */
  lemma FieldsWrittenOut(input: Input, isUuid: string -> bool, isEmail: string -> bool, allOk: bool)
    requires allOk <==>
               FieldOk(input, Id, isUuid, isEmail) && FieldOk(input, Name, isUuid, isEmail)
               && FieldOk(input, Email, isUuid, isEmail) && FieldOk(input, Phone, isUuid, isEmail)
               && FieldOk(input, Speciality, isUuid, isEmail) && FieldOk(input, AppointmentPriceInCents, isUuid, isEmail)
               && FieldOk(input, AvailableFromWeekDay, isUuid, isEmail) && FieldOk(input, AvailableToWeekDay, isUuid, isEmail)
               && FieldOk(input, AvailableFromTime, isUuid, isEmail) && FieldOk(input, AvailableToTime, isUuid, isEmail)
    ensures allOk <==>
              (input.id.None? || isUuid(input.id.value))
              && HasNonWhitespace(input.name) && isEmail(input.email)
              && HasNonWhitespace(input.phone) && HasNonWhitespace(input.speciality)
              && input.appointmentPriceInCents >= 1
              && 0 <= input.availableFromWeekDay <= 6 && 0 <= input.availableToWeekDay <= 6
              && |input.availableFromTime| >= 1 && |input.availableToTime| >= 1
  {
  }

  /** Every field's constraint holds exactly when each of the ten does. */
  lemma FieldsOkIff(input: Input, isUuid: string -> bool, isEmail: string -> bool)
    ensures (forall f :: FieldOk(input, f, isUuid, isEmail)) <==>
              FieldOk(input, Id, isUuid, isEmail) && FieldOk(input, Name, isUuid, isEmail)
              && FieldOk(input, Email, isUuid, isEmail) && FieldOk(input, Phone, isUuid, isEmail)
              && FieldOk(input, Speciality, isUuid, isEmail) && FieldOk(input, AppointmentPriceInCents, isUuid, isEmail)
              && FieldOk(input, AvailableFromWeekDay, isUuid, isEmail) && FieldOk(input, AvailableToWeekDay, isUuid, isEmail)
              && FieldOk(input, AvailableFromTime, isUuid, isEmail) && FieldOk(input, AvailableToTime, isUuid, isEmail)
  {
    var ok := (f: Field) => FieldOk(input, f, isUuid, isEmail);
    if ok(Id) && ok(Name) && ok(Email) && ok(Phone) && ok(Speciality) && ok(AppointmentPriceInCents)
       && ok(AvailableFromWeekDay) && ok(AvailableToWeekDay) && ok(AvailableFromTime) && ok(AvailableToTime)
    {
      forall f ensures FieldOk(input, f, isUuid, isEmail) {
        assert ok(f) by {
          match f
          case Id =>
          case Name =>
          case Email =>
          case Phone =>
          case Speciality =>
          case AppointmentPriceInCents =>
          case AvailableFromWeekDay =>
          case AvailableToWeekDay =>
          case AvailableFromTime =>
          case AvailableToTime =>
        }
      }
    }
  }

  /** Equal start and end times are rejected, with the issue on `availableToTime`. */
  lemma EqualTimesRejected(input: Input, isUuid: string -> bool, isEmail: string -> bool)
    requires input.availableFromTime == input.availableToTime
    ensures var issues := Issues(input, isUuid, isEmail);
            issues != [] && issues[|issues| - 1] == AvailableToTime
  {
  }

  /**
   * No order between the weekdays is demanded: in an accepted form any two
   * weekdays in 0..6 may replace the range, a start after the end included.
   */
  lemma WeekDayOrderNotChecked(input: Input, isUuid: string -> bool, isEmail: string -> bool, fromDay: int, toDay: int)
    requires Issues(input, isUuid, isEmail) == []
    requires 0 <= fromDay <= 6 && 0 <= toDay <= 6
    ensures Issues(input.(availableFromWeekDay := fromDay, availableToWeekDay := toDay), isUuid, isEmail) == []
  {
    var swapped := input.(availableFromWeekDay := fromDay, availableToWeekDay := toDay);
    NoIssuesIff(input, isUuid, isEmail);
    NoIssuesIff(swapped, isUuid, isEmail);
    assert forall f :: FieldOk(input, f, isUuid, isEmail) ==> FieldOk(swapped, f, isUuid, isEmail);
  }

  /**
   * On well-formed `HH:MM:SS` times the refinement's string test is the
   * numeric order of the times: it holds exactly when the start is strictly
   * earlier than the end.
   */
  lemma RefinementIsTimeOrder(input: Input, isUuid: string -> bool, isEmail: string -> bool)
    requires IsHms(input.availableFromTime) && IsHms(input.availableToTime)
    ensures AvailableToTime in Issues(input, isUuid, isEmail) <==>
              SecondsOf(input.availableToTime) <= SecondsOf(input.availableFromTime)
  {
    LexOrderIsTimeOrder(input.availableFromTime, input.availableToTime);
  }
}
