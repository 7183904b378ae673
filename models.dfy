/** The plain records of the booking service: the persisted entities
    (Appointment, Center, CenterType), the request body of a create or an
    update (AppointmentParameters), the validation error returned to callers,
    and the shape of the decoded seed file (CenterJsonFile, CenterJsonHelper). */
module Models {

  /** A reference that may be null, as the C# entity references are. */
  datatype Option<T> = None | Some(value: T)

  /** A center classification tag: reference data. */
  datatype CenterType = CenterType(id: int, value: string)

  /** A service center. `centerTypeValue` is copied from the center type at
      seed time; `centerTypeId` is a plain column that seeding never sets. */
  datatype Center = Center(
    id: int,
    name: string,
    streetAddress: string,
    centerTypeId: int,
    centerTypeValue: string)

  /** A booked appointment. It holds the center itself, not its id, and that
      reference is null when the center lookup found nothing. */
  datatype Appointment = Appointment(
    id: int,
    clientFullName: string,
    date: string,
    center: Option<Center>)

  /** The body of a create or update request. */
  datatype AppointmentParameters = AppointmentParameters(
    clientFullName: string,
    date: string,
    centerId: int)

  /** One entry of the error list a failed validation returns. */
  datatype ValidationError = ValidationError(code: int, message: string)

  /** One center as it appears in the seed file: a type id instead of a type value. */
  datatype CenterJsonHelper = CenterJsonHelper(
    id: int,
    name: string,
    streetAddress: string,
    centerTypeId: int)

  /** The decoded seed file: its list of centers and its list of center types. */
  datatype CenterJsonFile = CenterJsonFile(
    centers: seq<CenterJsonHelper>,
    centerTypes: seq<CenterType>)

  /** The outcome of a controller action in place of its HTTP result: a body
      (200), the created record (201), no content (204), not found (404), the
      error list (400), or an unhandled exception that ends the request. */
  datatype Response<T> =
    | Ok(value: T)
    | Created(value: T)
    | NoContent
    | NotFound
    | BadRequest(errors: seq<ValidationError>)
    | Fault
}
