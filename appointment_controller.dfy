/** Java's null modelled as an absent value. */
module Wrappers {
  datatype Option<+T> = None | Some(value: T)
}

/** The decision procedure of the appointment controller's POST handler
    (store) together with its two helpers.  The service the controller
    delegates to is an oracle passed in; every call the handler makes on it
    is recorded, so that which calls are reached is part of the result. */
module AppointmentController {
  import opened Wrappers
  import opened JavaText

  /** A Java int. */
  newtype Int32 = x: int | -0x8000_0000 <= x < 0x8000_0000

  /** The request body.  The date, the appointment type and its status are
      opaque values (type parameters); None stands for a null reference. */
  datatype AppointmentDto<Date, Kind, Status> = AppointmentDto(
    date: Option<Date>,
    petId: Int32,
    kind: Option<Kind>,
    reason: Option<string>,
    status: Option<Status>,
    ownerDni: Int32)

  /** The collaborator: the lookup by owner and date, whose result is opaque
      (None stands for a null result; any non-null result counts as a
      duplicate), and save, which returns the stored representation of a
      request. */
  datatype Service<!Date, !Kind, !Status, Found, Rsp> = Service(
    getAppointmentsByOwnerAndDate: (Int32, Option<Date>) -> Option<Found>,
    save: AppointmentDto<Date, Kind, Status> -> Rsp)

  /** One call the handler makes on the service. */
  datatype ServiceCall<Date, Kind, Status> =
    | GetAppointmentsByOwnerAndDate(ownerDni: Int32, date: Option<Date>)
    | Save(entity: AppointmentDto<Date, Kind, Status>)

  /** An HTTP response: status code and body (None is an empty body). */
  datatype Response<Rsp> = ResponseEntity(status: int, body: Option<Rsp>)

  datatype ConflictException = AppointmentConflictException(message: string)

  /** How a call of store ends: it returns a response or it throws. */
  datatype Outcome<Rsp> =
    | Returned(response: Response<Rsp>)
    | Thrown(exception: ConflictException)

  /** The outcome of one call together with the service calls it made, in order. */
  datatype Run<Date, Kind, Status, Rsp> = Run(
    outcome: Outcome<Rsp>,
    calls: seq<ServiceCall<Date, Kind, Status>>)

  const BadRequest: int := 400
  const Created: int := 201

  const ConflictPrefix: string :=
    "An appointment with the same date and time already exists for owner "

  /** The text of the conflict exception: the prefix followed by the owner's
      DNI as Java renders an int. */
  function ConflictMessage(ownerDni: Int32): (m: string)
    ensures |ConflictPrefix| < |m| && m[..|ConflictPrefix|] == ConflictPrefix
    ensures IsIntString(m[|ConflictPrefix|..]) && ParseInt(m[|ConflictPrefix|..]) == ownerDni as int
    ensures IsCanonicalIntString(m[|ConflictPrefix|..])
  {
    var m := ConflictPrefix + IntToString(ownerDni as int);
    assert m[|ConflictPrefix|..] == IntToString(ownerDni as int);
    ParseIntToString(ownerDni as int);
    m
  }

  /** isInvalidAppointment: one disjunction over the fields, with the
      reason rejected when null or when trim() leaves it empty. */
  predicate IsInvalidAppointment<Date, Kind, Status>(entity: AppointmentDto<Date, Kind, Status>) {
    entity.date.None? ||
    entity.petId <= 0 ||
    entity.kind.None? ||
    entity.reason.None? || Trim(entity.reason.value) == [] ||
    entity.status.None? ||
    entity.ownerDni <= 0
  }

  /** isDuplicateAppointment: the lookup for the request's owner and date
      returns a non-null result. */
  predicate IsDuplicateAppointment<Date, Kind, Status, Found, Rsp>(
    service: Service<Date, Kind, Status, Found, Rsp>, entity: AppointmentDto<Date, Kind, Status>)
  {
    service.getAppointmentsByOwnerAndDate(entity.ownerDni, entity.date).Some?
  }

  /** store: a missing date is a bad request; then a duplicate for the same
      owner and date throws the conflict exception; then an invalid field is
      a bad request; otherwise the service saves the request and its result
      is returned with status 201. */
  function Store<Date, Kind, Status, Found, Rsp>(
    service: Service<Date, Kind, Status, Found, Rsp>, entity: AppointmentDto<Date, Kind, Status>)
    : Run<Date, Kind, Status, Rsp>
  {
    if entity.date.None? then
      Run(Returned(ResponseEntity(BadRequest, None)), [])
    else
      var lookup := [GetAppointmentsByOwnerAndDate(entity.ownerDni, entity.date)];
      if IsDuplicateAppointment(service, entity) then
        Run(Thrown(AppointmentConflictException(ConflictMessage(entity.ownerDni))), lookup)
      else if IsInvalidAppointment(entity) then
        Run(Returned(ResponseEntity(BadRequest, None)), lookup)
      else
        var appointment := service.save(entity);
        Run(Returned(ResponseEntity(Created, Some(appointment))), lookup + [Save(entity)])
  }
}
