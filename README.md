# Appointment creation in the veterinary clinic controller

This project models the decision procedure behind `POST /appointments` in
the clinic's `AppointmentController`: the handler `store`, its field
validator `isInvalidAppointment` and its duplicate test
`isDuplicateAppointment`, and proves the order of its checks and what each
outcome looks like.

The handler is a pure function `AppointmentController.Store` of two inputs:

- the request body, an `AppointmentDto` whose date, type and status are
  opaque values (type parameters) and whose absent fields are `None`
  (Java's `null`); pet id and owner DNI are Java `int`s (`Int32`);
- the service, a `Service` value holding two oracles: the lookup
  `getAppointmentsByOwnerAndDate(ownerDni, date)`, whose result is opaque
  (`None` stands for a null result; any non-null result counts as a
  duplicate), and `save(request)` (the stored representation).

`Store` returns a `Run`: the outcome (a response with status and optional
body, or the thrown `AppointmentConflictException` with its message) and
the list of service calls made, in order. The list lets the model state
that a missing date reaches no service call, that a conflict or an invalid
field stops before `save`, and that `save` runs once, on the 201 path only.

Module `JavaText` holds the two pieces of `java.lang` the handler relies
on: `String.trim` (remove leading and trailing characters at most U+0020)
and the decimal rendering of an `int` that the conflict message's string
concatenation performs, with its inverse `ParseInt`.

Module `AppointmentProperties` states the handler's promises against
independent definitions: `ViolatesConstraints` / `HasInvalidField` (the
validation rules written with "every character is at most U+0020" instead
of `trim`), and proves them about `Store`.

## Model

| member | source | states |
|---|---|---|
| AppointmentController.Store | src/main/java/dev/project/veterclinic/controllers/AppointmentController.java:37-57 | the handler itself; it has no contract of its own: its behaviour is stated by StoreOutcomes and StoreCalls (and the per-branch lemmas below) |
| AppointmentController.IsInvalidAppointment | src/main/java/dev/project/veterclinic/controllers/AppointmentController.java:68-75 | the validator itself; it has no contract of its own: its meaning is stated by IsInvalidAppointmentIff |
| AppointmentController.IsDuplicateAppointment | src/main/java/dev/project/veterclinic/controllers/AppointmentController.java:78-81 | the duplicate test itself; it has no contract of its own: that it depends only on owner DNI and date is stated by ConflictIgnoresOtherFields, and what follows from it by DuplicateIsConflict |
| JavaText.IntToString | src/main/java/dev/project/veterclinic/controllers/AppointmentController.java:45 | the int-to-text step of the string concatenation: a non-empty string in Integer.toString's form (a leading '-' exactly for negative values, then decimal digits with no leading zero, never "-0"); ParseIntToString proves it reads back as the same number |
| AppointmentProperties.IsInvalidAppointmentIff | src/main/java/dev/project/veterclinic/controllers/AppointmentController.java:68-75 | the validator is true exactly when the date is null, petId ≤ 0, the type is null, the reason is null or blank, the status is null, or ownerDni ≤ 0 |
| JavaText.TrimEmptyIffBlank | src/main/java/dev/project/veterclinic/controllers/AppointmentController.java:72 | `trim()` of a reason is empty exactly when all its characters are at most U+0020 |
| AppointmentProperties.VisibleReasonPasses | src/main/java/dev/project/veterclinic/controllers/AppointmentController.java:72 | a reason holding one character above U+0020 passes the reason check |
| JavaText.Trim | src/main/java/dev/project/veterclinic/controllers/AppointmentController.java:72 | `trim` returns a slice of its input that neither starts nor ends with a character at most U+0020, everything cut off being such characters |
| AppointmentProperties.DateTestRedundantInStore | src/main/java/dev/project/veterclinic/controllers/AppointmentController.java:39-50 | once the date is known present (as it is when the handler calls the validator), the validator's date test cannot decide: its verdict is that of the other fields |
| AppointmentProperties.MissingDateIsBadRequest | src/main/java/dev/project/veterclinic/controllers/AppointmentController.java:39-41 | a null date gives status 400 with an empty body and no service call |
| AppointmentProperties.DuplicateIsConflict | src/main/java/dev/project/veterclinic/controllers/AppointmentController.java:43-46 | with a date, a non-null lookup for the owner and date throws the conflict exception with the owner's message, whatever the other fields hold; only the lookup is called |
| AppointmentProperties.ConflictIgnoresOtherFields | src/main/java/dev/project/veterclinic/controllers/AppointmentController.java:78-81 | the duplicate verdict and the exception depend only on owner DNI and date: requests differing in pet id, type, reason or status get the same exception |
| AppointmentController.ConflictMessage | src/main/java/dev/project/veterclinic/controllers/AppointmentController.java:45 | the message is the fixed prefix followed by an integer string in Integer.toString's form that reads back as the owner DNI; by CanonicalIsIntToString that fixes the text exactly |
| JavaText.CanonicalIsIntToString | src/main/java/dev/project/veterclinic/controllers/AppointmentController.java:45 | every string in Integer.toString's form is the rendering of its own value, so the form and the value together determine the text |
| AppointmentProperties.ConflictMessageNamesOwner | src/main/java/dev/project/veterclinic/controllers/AppointmentController.java:45 | whenever the handler throws, the owner DNI can be read back from the exception's message |
| AppointmentProperties.ConflictMessageInjective | src/main/java/dev/project/veterclinic/controllers/AppointmentController.java:45 | conflicts for different owners carry different messages |
| JavaText.ParseIntToString | src/main/java/dev/project/veterclinic/controllers/AppointmentController.java:45 | the decimal rendering of an int (sign, digits) reads back as the same number |
| JavaText.IntToStringInjective | src/main/java/dev/project/veterclinic/controllers/AppointmentController.java:45 | distinct numbers render as distinct strings |
| JavaText.NatToString | src/main/java/dev/project/veterclinic/controllers/AppointmentController.java:45 | the rendering is a non-empty string of decimal digits whose first digit is '0' only for the one-character string of zero |
| AppointmentProperties.InvalidIsBadRequest | src/main/java/dev/project/veterclinic/controllers/AppointmentController.java:48-50 | with a date, no booking and an invalid field the handler answers 400 with an empty body; the lookup is called and save is not |
| AppointmentProperties.ValidIsCreated | src/main/java/dev/project/veterclinic/controllers/AppointmentController.java:52-56 | a valid request with no booking gives status 201 whose body is exactly what save returned; the calls are the lookup and one save of the request |
| AppointmentProperties.StoreOutcomes | src/main/java/dev/project/veterclinic/controllers/AppointmentController.java:37-57 | every request ends in exactly one of bad request, conflict or created, each exactly under its condition (both directions) |
| AppointmentProperties.StoreCalls | src/main/java/dev/project/veterclinic/controllers/AppointmentController.java:37-57 | the lookup is the first call and happens exactly when a date is present; save, of the request itself, is the last call and happens exactly on the 201 path |

## Left out

- `index` and `show` (lines 31-33, 61-65): `index` returns the service's list; `show` returns the service's result as the body of a 200 response. What they return is defined by the service, which is not part of this model.
- Spring routing, `@RestController`, `@RequestMapping` and the construction of `ResponseEntity`: framework plumbing; a response is modelled as a status code and an optional body.
- `@Valid` on the request body: its constraints live in `AppointmentDto`, which is not part of this model; the model describes `store` as reached with any request.
- `AppointmentService` (lookup, save, persistence): foreign code, modelled only as the two oracle functions in `Service`. The 201 body is always `Some` of what `save` returned, so a null returned by `save` (which Java would send as a 201 with a null body) is represented only as whatever value of the opaque response type stands for it. Any side effect of `save` beyond its return value is represented only by the `Save` entry in the call list. Both oracles are total functions, so an exception thrown by the lookup or by `save`, which `store` would let propagate, is not modelled: the three outcomes of `StoreOutcomes`, and the "save only on the 201 path" part of `StoreCalls`, hold for service calls that return.
- The mapping of `AppointmentConflictException` to an HTTP status: done by a global exception handler that is not part of this model; the model ends with the exception thrown.
- The date/time type and the type and status enumerations: opaque type parameters, only tested for null; the date is also passed to the lookup; all three reach `save` unchanged inside the request.
- `AppointmentDto` is declared outside the controller and is not modelled: pet id and owner DNI are taken to be Java `int`; if they are boxed `Integer`s, the `NullPointerException` that a null would cause on unboxing is not modelled.
- Java strings are UTF-16 code units; the model's strings are Unicode scalar values. `trim` compares with U+0020 in both, so the result agrees for every character the model can hold.
- The race between the duplicate lookup and `save` under concurrent requests: outside a sequential model.
