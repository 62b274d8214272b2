/**
 * The booking form's input schema (`addAgendamentoSchema`): which fields
 * are required and how each is checked. The uuid format test is a
 * parameter, `isUuid`.
 */
module AgendamentoSchema {
  import opened Wrappers
  import Tables

  /** The field an issue is reported against. */
  datatype Field = ClientId | ProfessionalId | Date | Time | AgendamentoPriceInCents | StatusName

  /** The booking request as submitted; `date` and `status` may be missing. */
  datatype Input = Input(
    clientId: string,
    professionalId: string,
    date: Option<Tables.Instant>,
    time: string,
    agendamentoPriceInCents: int,
    status: Option<string>)

  /** The two values the status enum admits. */
  predicate IsStatusName(s: string)
  {
    s == "confirmado" || s == "cancelado"
  }

  /** The schema's fields in declaration order, the order in which their issues are reported. */
  const Declared: seq<Field> := [ClientId, ProfessionalId, Date, Time, AgendamentoPriceInCents, StatusName]

  /** One field's constraint. */
  predicate FieldOk(input: Input, field: Field, isUuid: string -> bool)
  {
    match field
    case ClientId => isUuid(input.clientId)
    case ProfessionalId => isUuid(input.professionalId)
    case Date => input.date.Some?
    case Time => |input.time| >= 1
    case AgendamentoPriceInCents => input.agendamentoPriceInCents >= 1
    case StatusName => input.status.None? || IsStatusName(input.status.value)
  }

  /** The fields of `fields` whose constraint fails, in order. */
  function Failing(fields: seq<Field>, input: Input, isUuid: string -> bool): (failing: seq<Field>)
    ensures forall f :: f in failing <==> f in fields && !FieldOk(input, f, isUuid)
    ensures |failing| <= |fields|
  {
    if fields == [] then []
    else
      var rest := Failing(fields[1..], input, isUuid);
      assert fields == [fields[0]] + fields[1..];
      if FieldOk(input, fields[0], isUuid) then rest else [fields[0]] + rest
  }

  /** The issues the schema reports, in declaration order; empty means accepted. */
  function Issues(input: Input, isUuid: string -> bool): (issues: seq<Field>)
    ensures forall f :: f in issues <==> !FieldOk(input, f, isUuid)
  {
    assert forall f :: f in Declared by {
      forall f ensures f in Declared {
        Declares(f);
      }
    }
    Failing(Declared, input, isUuid)
  }

  /** Every field is declared. */
  lemma Declares(f: Field)
    ensures f in Declared
  {
  }

  /** The status stored for an accepted request: the given one, `confirmado` when none is given. */
  function StoredStatus(status: Option<string>): (s: Tables.Status)
    requires status.Some? ==> IsStatusName(status.value)
    ensures status.None? ==> s == Tables.Confirmado
    ensures status.Some? ==> (s == Tables.Cancelado <==> status.value == "cancelado")
  {
    if status.Some? && status.value == "cancelado" then Tables.Cancelado else Tables.Confirmado
  }

  /** The schema accepts exactly the requests that meet every field's constraint. */
  lemma AcceptedIff(input: Input, isUuid: string -> bool)
    ensures Issues(input, isUuid) == [] <==>
              isUuid(input.clientId) && isUuid(input.professionalId) && input.date.Some?
              && |input.time| >= 1 && input.agendamentoPriceInCents >= 1
              && (input.status.Some? ==> input.status.value == "confirmado" || input.status.value == "cancelado")
  {
    var issues := Issues(input, isUuid);
    if issues != [] {
      assert issues[0] in issues;
    } else {
      assert FieldOk(input, ClientId, isUuid) && FieldOk(input, ProfessionalId, isUuid) && FieldOk(input, Date, isUuid)
        && FieldOk(input, Time, isUuid) && FieldOk(input, AgendamentoPriceInCents, isUuid) && FieldOk(input, StatusName, isUuid);
    }
  }

  /** The time is only required to be non-empty: any non-empty string passes, whatever its shape. */
  lemma TimeFormatNotChecked(input: Input, isUuid: string -> bool, time: string)
    requires Issues(input, isUuid) == [] && time != []
    ensures Issues(input.(time := time), isUuid) == []
  {
    var changed := input.(time := time);
    AcceptedIff(input, isUuid);
    AcceptedIff(changed, isUuid);
  }
}
