/** What the POST handler promises, stated against independent definitions
    of a valid request and proved about the model of store. */
module AppointmentProperties {
  import opened Wrappers
  import opened JavaText
  import opened AppointmentController

  /** Some field other than the date breaks the request constraints:
      a non-positive pet id or owner DNI, a missing type or status, or a
      reason that is missing or made only of characters at most U+0020. */
  ghost predicate HasInvalidField<Date, Kind, Status>(e: AppointmentDto<Date, Kind, Status>) {
    e.petId <= 0 || e.kind.None? || e.reason.None? || IsBlank(e.reason.value) ||
    e.status.None? || e.ownerDni <= 0
  }

  /** A request that breaks some constraint, the date included. */
  ghost predicate ViolatesConstraints<Date, Kind, Status>(e: AppointmentDto<Date, Kind, Status>) {
    e.date.None? || HasInvalidField(e)
  }

  /** The response for a rejected request: status 400 and no body. */
  function BadRequestResponse<Rsp>(): Outcome<Rsp> {
    Returned(ResponseEntity(BadRequest, None))
  }

  /** isInvalidAppointment holds exactly when some constraint is broken. */
  lemma IsInvalidAppointmentIff<Date, Kind, Status>(e: AppointmentDto<Date, Kind, Status>)
    ensures IsInvalidAppointment(e) <==> ViolatesConstraints(e)
  {
    if e.reason.Some? {
      TrimEmptyIffBlank(e.reason.value);
    }
  }

  /** A reason with one character above U+0020 passes the reason check. */
  lemma VisibleReasonPasses(reason: string, i: int)
    requires 0 <= i < |reason| && reason[i] > ' '
    ensures Trim(reason) != []
  {
    TrimEmptyIffBlank(reason);
  }

  /** Once the date is known to be present, the validator's date test
      cannot fire: its verdict is that of the remaining fields. */
  lemma DateTestRedundantInStore<Date, Kind, Status>(e: AppointmentDto<Date, Kind, Status>)
    requires e.date.Some?
    ensures IsInvalidAppointment(e) <==> HasInvalidField(e)
  {
    IsInvalidAppointmentIff(e);
  }

  /** A null date is a bad request with an empty body; the service is not called. */
  lemma MissingDateIsBadRequest<Date, Kind, Status, Found, Rsp>(
    service: Service<Date, Kind, Status, Found, Rsp>, e: AppointmentDto<Date, Kind, Status>)
    requires e.date.None?
    ensures Store(service, e).outcome == BadRequestResponse()
    ensures |Store(service, e).calls| == 0
  {
  }

  /** With a date, a booking for the same owner and date throws the conflict
      exception naming the owner, before any field is validated: only the
      lookup is made and nothing is saved. */
  lemma DuplicateIsConflict<Date, Kind, Status, Found, Rsp>(
    service: Service<Date, Kind, Status, Found, Rsp>, e: AppointmentDto<Date, Kind, Status>)
    requires e.date.Some? && IsDuplicateAppointment(service, e)
    ensures Store(service, e).outcome == Thrown(AppointmentConflictException(ConflictMessage(e.ownerDni)))
    ensures Store(service, e).calls == [GetAppointmentsByOwnerAndDate(e.ownerDni, e.date)]
  {
  }

  /** The conflict outcome does not depend on pet id, type, reason or status. */
  lemma ConflictIgnoresOtherFields<Date, Kind, Status, Found, Rsp>(
    service: Service<Date, Kind, Status, Found, Rsp>,
    e: AppointmentDto<Date, Kind, Status>, e': AppointmentDto<Date, Kind, Status>)
    requires e.date.Some? && IsDuplicateAppointment(service, e)
    requires e'.date == e.date && e'.ownerDni == e.ownerDni
    ensures Store(service, e').outcome.Thrown?
    ensures Store(service, e').outcome.exception == Store(service, e).outcome.exception
  {
  }

  /** The message of a thrown conflict carries the request's owner DNI,
      which can be read back from it. */
  lemma ConflictMessageNamesOwner<Date, Kind, Status, Found, Rsp>(
    service: Service<Date, Kind, Status, Found, Rsp>, e: AppointmentDto<Date, Kind, Status>)
    requires Store(service, e).outcome.Thrown?
    ensures var m := Store(service, e).outcome.exception.message;
            |ConflictPrefix| < |m| && m[..|ConflictPrefix|] == ConflictPrefix &&
            IsIntString(m[|ConflictPrefix|..]) && ParseInt(m[|ConflictPrefix|..]) == e.ownerDni as int
  {
  }

  /** Conflicts for different owners have different messages. */
  lemma ConflictMessageInjective(a: Int32, b: Int32)
    ensures ConflictMessage(a) == ConflictMessage(b) ==> a == b
  {
    if ConflictMessage(a) == ConflictMessage(b) {
      assert ConflictMessage(a)[|ConflictPrefix|..] == ConflictMessage(b)[|ConflictPrefix|..];
    }
  }

  /** With a date and no booking, an invalid request is a bad request with
      an empty body; the lookup is made, save is not. */
  lemma InvalidIsBadRequest<Date, Kind, Status, Found, Rsp>(
    service: Service<Date, Kind, Status, Found, Rsp>, e: AppointmentDto<Date, Kind, Status>)
    requires e.date.Some? && !IsDuplicateAppointment(service, e) && HasInvalidField(e)
    ensures Store(service, e).outcome == BadRequestResponse()
    ensures Store(service, e).calls == [GetAppointmentsByOwnerAndDate(e.ownerDni, e.date)]
  {
    IsInvalidAppointmentIff(e);
  }

  /** A valid request with no booking is saved once and answered with 201
      and exactly what save returned. */
  lemma ValidIsCreated<Date, Kind, Status, Found, Rsp>(
    service: Service<Date, Kind, Status, Found, Rsp>, e: AppointmentDto<Date, Kind, Status>)
    requires !ViolatesConstraints(e) && !IsDuplicateAppointment(service, e)
    ensures Store(service, e).outcome == Returned(ResponseEntity(Created, Some(service.save(e))))
    ensures Store(service, e).calls ==
              [GetAppointmentsByOwnerAndDate(e.ownerDni, e.date), Save(e)]
  {
    IsInvalidAppointmentIff(e);
  }

  /** Every request ends in exactly one of the three outcomes, and each
      outcome happens exactly under its condition. */
  lemma StoreOutcomes<Date, Kind, Status, Found, Rsp>(
    service: Service<Date, Kind, Status, Found, Rsp>, e: AppointmentDto<Date, Kind, Status>)
    ensures var o := Store(service, e).outcome;
            o == BadRequestResponse() ||
            o == Thrown(AppointmentConflictException(ConflictMessage(e.ownerDni))) ||
            o == Returned(ResponseEntity(Created, Some(service.save(e))))
    ensures Store(service, e).outcome == BadRequestResponse() <==>
              e.date.None? || (!IsDuplicateAppointment(service, e) && HasInvalidField(e))
    ensures Store(service, e).outcome.Thrown? <==> e.date.Some? && IsDuplicateAppointment(service, e)
    ensures (Store(service, e).outcome.Returned? && Store(service, e).outcome.response.status == Created)
              <==> (!ViolatesConstraints(e) && !IsDuplicateAppointment(service, e))
  {
    if e.date.Some? {
      IsInvalidAppointmentIff(e);
    }
  }

  /** The service calls store makes: the lookup comes first and only when a
      date is present; save, of the request itself, comes last and only on
      the path that answers 201. */
  lemma StoreCalls<Date, Kind, Status, Found, Rsp>(
    service: Service<Date, Kind, Status, Found, Rsp>, e: AppointmentDto<Date, Kind, Status>)
    ensures var calls := Store(service, e).calls;
            (|calls| > 0 <==> e.date.Some?) &&
            (|calls| > 0 ==> calls[0] == GetAppointmentsByOwnerAndDate(e.ownerDni, e.date))
    ensures var r := Store(service, e);
            (exists k :: 0 <= k < |r.calls| && r.calls[k].Save?) <==>
              r.outcome.Returned? && r.outcome.response.status == Created
    ensures var calls := Store(service, e).calls;
            forall k :: 0 <= k < |calls| && calls[k].Save? ==> k == |calls| - 1 == 1 && calls[k].entity == e
  {
    var r := Store(service, e);
    if r.outcome.Returned? && r.outcome.response.status == Created {
      assert r.calls[1].Save?;
    }
  }
}
