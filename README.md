# Service center booking: a verified model

This project models the booking core of ServiceCenterBookingApp, an ASP.NET
Core service that books appointments at Transport Canada service centers.

The appointment controller lists, fetches, creates, updates and deletes
appointments. Each write commits only when `ValidateAppointment` returns an
empty error list. That list contains:

- code 1 when the center lookup found nothing;
- code 2 when the date fails the strict `yyyy-dd-MM` parse;
- one code 3 for every other stored appointment at the same center with a
  character-identical date string.

The center controller lists and fetches centers. Both controllers' constructors
seed the center catalog from a decoded seed file when the center table is empty.
`CenterDBPrep.PrepCentersDB` adds the file's center types first, then one center
per entry, and commits once.

The modules follow the source:

- `Models`: the records.
- `DateFormat`: the strict date parse and its inverse rendering.
- `Database`: the in-memory store. Class `ApiContext` holds the three tables as
  maps plus the appointment key generator (a counter). Assigning a field is the
  commit (`SaveChanges`).
- `CenterDbPrep`: the seeding routine. It is a method with the source's two
  loops, proved against the function `Seed`.
- `AppointmentValidation`: what validation computes, on values.
- `Appointments`: class `AppointmentController`.
- `Centers`: class `CenterController`.

Outcomes of controller actions are the datatype `Response`: Ok, Created,
NoContent, NotFound, BadRequest(errors), or Fault for an unhandled exception.

A faithful detail: a missing center is a null reference. The conflict loop
dereferences `a.Center.Id` and `apt.Center.Id` for every stored appointment
with another id. So a request naming an unknown center throws, instead of
returning code 1, whenever any other appointment is stored. Validation
therefore yields either `Errors(list)` or `NullDereference`, and Create and
Update turn the latter into `Fault`.

A controller constructor is `static method New`. It returns `null` when
seeding throws, and the controller otherwise.

Every stored appointment has a center and a date that passes the strict parse,
because a record is committed only with an empty error list; the store
invariant `ApiContext.Valid()` carries both. For dates the strict parse
accepts, comparing the raw strings and comparing the parsed days agree
(`DateFormat.SameDayIsSameString`), so for a candidate with a well-formed date
the code-3 test on raw strings finds exactly the other appointments at that
center on the same calendar day (`AppointmentValidation.ConflictsAreSameDay`).

## Model

| member | source | states |
|---|---|---|
| DateFormat.ParseOfFormat | TransportCanadaServiceCenterBookingApp/Controllers/AppointmentController.cs:198 | every calendar day in years 1..9999, rendered as year-day-month with 4, 2 and 2 digits, is accepted and parses back to that day |
| DateFormat.FormatOfParse | TransportCanadaServiceCenterBookingApp/Controllers/AppointmentController.cs:198 | an accepted string is a calendar day and is exactly that day's rendering (no white space, sign or other spelling) |
| DateFormat.ParseAcceptsIff | TransportCanadaServiceCenterBookingApp/Controllers/AppointmentController.cs:198-201 | the date check accepts a string if and only if it is the rendering of some calendar day |
| DateFormat.SameDayIsSameString | TransportCanadaServiceCenterBookingApp/Controllers/AppointmentController.cs:198-208 | two accepted strings that parse to the same day are the same string |
| DateFormat.AcceptsDayBeforeMonth | TransportCanadaServiceCenterBookingApp/Controllers/AppointmentController.cs:198 | "2024-13-01" is accepted as 13 January 2024 (the day comes before the month) |
| DateFormat.RejectsMonthThirteen | TransportCanadaServiceCenterBookingApp/Controllers/AppointmentController.cs:198 | "2024-31-13" is rejected |
| DateFormat.LeapDay | TransportCanadaServiceCenterBookingApp/Controllers/AppointmentController.cs:198 | 29 February 2024 is accepted |
| DateFormat.CenturyNotLeap | TransportCanadaServiceCenterBookingApp/Controllers/AppointmentController.cs:198 | 29 February 1900 is rejected (Gregorian century rule) |
| DateFormat.RejectsOutOfFormat | TransportCanadaServiceCenterBookingApp/Controllers/AppointmentController.cs:198 | year 0, a leading blank and a one-digit day are rejected |
| DateFormat.ValueOfDigits | TransportCanadaServiceCenterBookingApp/Controllers/AppointmentController.cs:198 | proof helper about the model's own digit functions, used by ParseOfFormat: reading back a zero-padded rendering of n gives n |
| DateFormat.DigitsOfValue | TransportCanadaServiceCenterBookingApp/Controllers/AppointmentController.cs:198 | proof helper about the model's own digit functions, used by FormatOfParse: a run of digits is the zero-padded rendering of its value |
| Database.ToList | TransportCanadaServiceCenterBookingApp/Controllers/AppointmentController.cs:51 | listing a table yields each stored record exactly once, each with the key it is stored under |
| Database.ApiContext.FindCenter | TransportCanadaServiceCenterBookingApp/Controllers/AppointmentController.cs:88 | the lookup yields the stored center when its id is a key, and null otherwise |
| Database.ApiContext.FindAppointment | TransportCanadaServiceCenterBookingApp/Controllers/AppointmentController.cs:67 | the lookup yields the stored appointment when its id is a key, and null otherwise |
| AppointmentValidation.ErrorOrder | TransportCanadaServiceCenterBookingApp/Controllers/AppointmentController.cs:187-214 | every code is 1, 2 or 3; codes never decrease along the list; only code 3 repeats |
| AppointmentValidation.ErrorAt | TransportCanadaServiceCenterBookingApp/Controllers/AppointmentController.cs:187-214 | the list is the field errors followed only by code 3 entries |
| AppointmentValidation.CodeOneIff | TransportCanadaServiceCenterBookingApp/Controllers/AppointmentController.cs:88-193 | code 1 is in the returned list if and only if the center lookup found nothing |
| AppointmentValidation.CodeTwoIff | TransportCanadaServiceCenterBookingApp/Controllers/AppointmentController.cs:198-201 | code 2 is in the returned list if and only if the date fails the strict parse |
| AppointmentValidation.CodeThreeCount | TransportCanadaServiceCenterBookingApp/Controllers/AppointmentController.cs:204-213 | the number of code 3 entries equals the number of stored appointments with another id, the same center id and an identical date string |
| AppointmentValidation.NullDereferenceIff | TransportCanadaServiceCenterBookingApp/Controllers/AppointmentController.cs:190-208 | when every stored appointment has a center, validation throws if and only if the candidate has no center and some appointment with another id is stored |
| AppointmentValidation.NoErrorsIff | TransportCanadaServiceCenterBookingApp/Controllers/AppointmentController.cs:187-214 | when every stored appointment has a center, the list is empty if and only if the center exists, the date parses and no other appointment is in the slot |
| AppointmentValidation.OwnRecordIgnored | TransportCanadaServiceCenterBookingApp/Controllers/AppointmentController.cs:206 | validating a record against the store gives the same result as validating it against the store without that record |
| AppointmentValidation.SameSlotUpdateNoConflict | TransportCanadaServiceCenterBookingApp/Controllers/AppointmentController.cs:206-208 | when slots are unique, an update that keeps its slot raises no code 3 |
| AppointmentValidation.RebookingConflicts | TransportCanadaServiceCenterBookingApp/Controllers/AppointmentController.cs:204-211 | a new request for an occupied slot gets an error list holding a code 3 |
| AppointmentValidation.ConflictsAreSameDay | TransportCanadaServiceCenterBookingApp/Controllers/AppointmentController.cs:198-211 | for a candidate whose date parses, the code-3 conflicts are exactly the other stored appointments at the same center whose date parses to the same calendar day |
| AppointmentValidation.MissingCenterAndBadDate | TransportCanadaServiceCenterBookingApp/Controllers/AppointmentController.cs:189-201 | with no other appointment stored, a missing center and a bad date give exactly the list [code 1, code 2] |
| AppointmentValidation.InsertKeepsSlotsUnique | TransportCanadaServiceCenterBookingApp/Controllers/AppointmentController.cs:94-97 | storing a record whose slot no other stored record occupies keeps slots unique |
| AppointmentValidation.CountCodeAppend | TransportCanadaServiceCenterBookingApp/Controllers/AppointmentController.cs:187-214 | proof helper about the model's own counting function, used by CodeThreeCount: counting a code over two concatenated lists adds the two counts |
| AppointmentValidation.CountRepeated | TransportCanadaServiceCenterBookingApp/Controllers/AppointmentController.cs:210 | proof helper about the model's own counting function, used by CodeThreeCount: n appended copies of an error contain its code n times |
| Appointments.AppointmentController.ValidateAppointment | TransportCanadaServiceCenterBookingApp/Controllers/AppointmentController.cs:182-215 | the method's outcome (the list it builds, or the null dereference) equals `Validate` on the current store |
| Appointments.ScanConflicts | TransportCanadaServiceCenterBookingApp/Controllers/AppointmentController.cs:204-214 | the loop throws exactly when some other-id record has a null center or the candidate has none; otherwise it appends one code 3 per conflicting record |
| Appointments.PutKeepsStore | TransportCanadaServiceCenterBookingApp/Controllers/AppointmentController.cs:94-97 | storing a record with a generated key, a stored center, a well-formed date and a free slot keeps every appointment clause of the store invariant (keys, centers, dates, unique slots) |
| Appointments.AppointmentController.GetAll | TransportCanadaServiceCenterBookingApp/Controllers/AppointmentController.cs:44-52 | every stored appointment once, with distinct ids, each as stored, with its stored center and a date that passes the strict parse |
| Appointments.AppointmentController.GetById | TransportCanadaServiceCenterBookingApp/Controllers/AppointmentController.cs:61-74 | Ok with the stored record unchanged, or NotFound when no record has the id |
| Appointments.AppointmentController.Create | TransportCanadaServiceCenterBookingApp/Controllers/AppointmentController.cs:82-106 | Fault when validation throws; BadRequest with validation's list and an unchanged store when the list is non-empty; otherwise Created, with exactly one new record (name, date, looked-up center) under a fresh generated id, all else unchanged; slots stay unique |
| Appointments.AppointmentController.Update | TransportCanadaServiceCenterBookingApp/Controllers/AppointmentController.cs:115-150 | NotFound with nothing changed for an unknown id; otherwise the record with its three fields replaced is validated; NoContent replaces only that record, keeping its id; on BadRequest or Fault nothing is persisted; slots stay unique |
| Appointments.AppointmentController.Delete | TransportCanadaServiceCenterBookingApp/Controllers/AppointmentController.cs:158-170 | NotFound and an unchanged store for an unknown id; otherwise NoContent, with exactly that record removed |
| Appointments.AppointmentController.New | TransportCanadaServiceCenterBookingApp/Controllers/AppointmentController.cs:30-38 | seeds through `PrepCentersDb` only when there is no center; the catalog afterwards is `SeedIfEmpty` of the old one; null (nothing changed) when seeding throws; appointments untouched |
| Appointments.CreateThenGetById | TransportCanadaServiceCenterBookingApp/Controllers/AppointmentController.cs:67-99 | a created appointment is found again, identical, by its id |
| Appointments.DeleteThenGetById | TransportCanadaServiceCenterBookingApp/Controllers/AppointmentController.cs:160-169 | Delete answers NoContent exactly when the id was stored, and afterwards GetById answers NotFound |
| Appointments.BookTwice | TransportCanadaServiceCenterBookingApp/Controllers/AppointmentController.cs:85-105 | when the first request is created, the identical second one is rejected with a code 3 and the first stays stored |
| Centers.CenterController.New | TransportCanadaServiceCenterBookingApp/Controllers/CenterController.cs:28-36 | seeds only when there is no center; the catalog afterwards is `SeedIfEmpty` of the old one; null (nothing changed) when seeding throws |
| Centers.CenterController.GetAll | TransportCanadaServiceCenterBookingApp/Controllers/CenterController.cs:43-46 | every stored center, and nothing else, exactly once and as stored |
| Centers.CenterController.GetCenter | TransportCanadaServiceCenterBookingApp/Controllers/CenterController.cs:54-63 | Ok with the stored center unchanged, or NotFound when no center has the id; the store is read only |
| Centers.ListThenGet | TransportCanadaServiceCenterBookingApp/Controllers/CenterController.cs:45-62 | fetching a listed center by its id yields the same record |
| CenterDbPrep.AddTypesSucceedsIff | TransportCanadaServiceCenterBookingApp/Utilities/CenterDBPrep.cs:22-25 | the type loop succeeds if and only if the input type ids are distinct and none is already stored |
| CenterDbPrep.AddTypesContents | TransportCanadaServiceCenterBookingApp/Utilities/CenterDBPrep.cs:22-25 | after the type loop every input type is stored under its id and the old types are kept |
| CenterDbPrep.AddCentersSucceedsIff | TransportCanadaServiceCenterBookingApp/Utilities/CenterDBPrep.cs:29-38 | the center loop succeeds if and only if every entry's type id resolves and the center ids are distinct and new |
| CenterDbPrep.AddCentersContents | TransportCanadaServiceCenterBookingApp/Utilities/CenterDBPrep.cs:29-38 | each entry becomes exactly one center with its id, name and address, type value from its type, and type id 0 |
| CenterDbPrep.SeedSucceedsIff | TransportCanadaServiceCenterBookingApp/Utilities/CenterDBPrep.cs:18-40 | seeding succeeds if and only if type ids and center ids are new and distinct and each center's type is stored or in the same file (types go in first) |
| CenterDbPrep.UnknownTypeFails | TransportCanadaServiceCenterBookingApp/Utilities/CenterDBPrep.cs:35-39 | a center naming a type neither stored nor in the file makes seeding fail, so nothing is persisted |
| CenterDbPrep.SeedContents | TransportCanadaServiceCenterBookingApp/Utilities/CenterDBPrep.cs:22-37 | after a successful seed, all input types are stored; each input center is stored once with its id, name and address, type id 0 and the value of its type; old rows are kept; tables stay keyed |
| CenterDbPrep.SeedIfEmptyIdempotent | TransportCanadaServiceCenterBookingApp/Controllers/CenterController.cs:32-35 | once a seed with at least one center succeeded, a second guarded seed changes nothing |
| CenterDbPrep.SeedIfEmptyRepeatsWithoutCenters | TransportCanadaServiceCenterBookingApp/Controllers/CenterController.cs:32-35 | the guard tests centers only: after seeding a file with types but no centers, the next guarded seed fails on the repeated type keys |
| CenterDbPrep.PrepCentersDb | TransportCanadaServiceCenterBookingApp/Utilities/CenterDBPrep.cs:18-40 | the two loops and the commit leave the catalog equal to `Seed` of the old catalog, or, when the routine throws, unchanged; appointments untouched |

## Left out

- HTTP plumbing: routing, `ActionResult` mapping and status codes become the `Response` datatype.
- Entity Framework mechanics: tracked entities, `Add`/`Update`/`Remove` and deferred `SaveChanges` are modelled as maps that are assigned once at the commit.
- The in-memory provider's behaviour when `SaveChanges` hits a key collision after writing part of a batch is not modelled. A seed that would collide commits nothing.
- Key generation: new appointment ids come from a counter. A seed file with key 0 (which the provider would replace by a generated key) and 32-bit id overflow are not modelled.
- Navigation fix-up reads (`var centers = _context.Centers.ToList()`) have no effect on values here. Every stored appointment holds its stored center.
- Reading and decoding the seed file (`File.ReadAllText`, `JsonConvert`) are not modelled; the decoded file is a parameter of `New` and `PrepCentersDb`.
- Null strings: a missing name or date is not modelled (a missing date fails the parse just as "" does).
- Culture: the parse is modelled only for the invariant digits and `-` of the `yyyy-dd-MM` format under en-US. No culture tables are modelled.
- Concurrency and request scoping: each action runs to completion on one store. Update's in-place edit of the tracked record before validation is discarded with the request when validation fails. The model therefore builds the updated record as a value.
- Centers.CenterController.GetAll: the design asks for centers in insertion order; the store is a map, which keeps no insertion order, so the contract states the set of centers returned and not their order.
- Appointments.AppointmentController.GetAll: the provider promises no order for the appointment list, and the contract states none.
- `[JsonIgnore]` on `Center.CenterTypeId` has no behaviour in the model.
