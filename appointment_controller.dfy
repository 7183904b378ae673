/** The appointment service (`AppointmentController`): list, get, create,
    update and delete over the shared store, each write committed only when
    validation returns an empty error list. */
module Appointments {
  import opened Models
  import opened Database
  import opened DateFormat
  import opened AppointmentValidation
  import opened CenterDbPrep

  class AppointmentController {
    const context: ApiContext

    /** Allocation only; `New` is the constructor with its seeding guard. */
    constructor (context: ApiContext)
      ensures this.context == context
    {
      this.context := context;
    }

    /** The controller's constructor: seed the catalog when it has no center.
        A seed that throws aborts construction, shown here as `null`. */
    static method New(context: ApiContext, file: CenterJsonFile) returns (c: AppointmentController?)
      requires context.Valid()
      modifies context
      ensures context.Valid()
      ensures context.appointments == old(context.appointments)
      ensures context.nextAppointmentId == old(context.nextAppointmentId)
      ensures var s := SeedIfEmpty(Catalog(old(context.centerTypes), old(context.centers)), file);
        && (c == null <==> s.None?)
        && (c != null ==> fresh(c) && c.context == context
                          && Catalog(context.centerTypes, context.centers) == s.value)
        && (c == null ==> context.centerTypes == old(context.centerTypes)
                          && context.centers == old(context.centers))
    {
      if |context.centers| == 0 {
        var ok := PrepCentersDb(context, file);
        if !ok {
          return null;
        }
      }
      c := new AppointmentController(context);
    }

    /** Every stored appointment once, each with its stored center attached. */
    method GetAll() returns (r: seq<Appointment>)
      requires context.Valid()
      ensures |r| == |context.appointments.Keys|
      ensures forall k :: k in context.appointments ==> context.appointments[k] in r
      ensures forall i :: 0 <= i < |r| ==>
        && r[i].id in context.appointments
        && context.appointments[r[i].id] == r[i]
        && r[i].center.Some?
        && context.centers[r[i].center.value.id] == r[i].center.value
        && TryParseExact(r[i].date).Some?
      ensures forall i, j :: 0 <= i < j < |r| ==> r[i].id != r[j].id
    {
      ghost var keys;
      r, keys := ToList(context.appointments);
      forall k | k in context.appointments ensures context.appointments[k] in r {
        var i :| 0 <= i < |keys| && keys[i] == k;
        assert r[i] == context.appointments[k];
      }
    }

    /** The stored appointment with that id, unchanged, or NotFound. */
    method GetById(id: int) returns (r: Response<Appointment>)
      ensures id in context.appointments ==> r == Ok(context.appointments[id])
      ensures id !in context.appointments ==> r == NotFound
    {
      var apt := context.FindAppointment(id);
      if apt.None? {
        return NotFound;
      }
      r := Ok(apt.value);
    }

    /** `ValidateAppointment`: both field checks, then the conflict loop over
        every stored appointment, skipping the candidate's own id. */
    method ValidateAppointment(apt: Appointment) returns (r: Validation)
      ensures r == Validate(context.appointments, apt)
    {
      var errors: seq<ValidationError> := [];
      if apt.center.None? {
        errors := errors + [CenterMissing];
      }
      if TryParseExact(apt.date).None? {
        errors := errors + [BadDateFormat];
      }
      assert errors == FieldErrors(apt);
      r := ScanConflicts(context.appointments, apt, errors);
    }

    /** `Create`: build the candidate (id 0 until the store assigns one),
        validate, and on an empty list add it under a fresh generated id. */
    method Create(p: AppointmentParameters) returns (r: Response<Appointment>)
      requires context.Valid()
      modifies context
      ensures context.Valid()
      ensures context.centers == old(context.centers) && context.centerTypes == old(context.centerTypes)
      ensures var v := Validate(old(context.appointments),
                                Appointment(0, p.clientFullName, p.date, context.FindCenter(p.centerId)));
        && (r == Fault <==> v.NullDereference?)
        && (r.BadRequest? <==> v.Errors? && v.errors != [])
        && (r.BadRequest? ==> r.errors == v.errors)
        && (r.Created? <==> v == Errors([]))
      ensures r.Created? ==>
        && r.value == Appointment(old(context.nextAppointmentId), p.clientFullName, p.date, context.FindCenter(p.centerId))
        && r.value.id !in old(context.appointments)
        && context.appointments == old(context.appointments)[r.value.id := r.value]
      ensures r.Fault? || r.BadRequest? || r.Created?
      ensures !r.Created? ==>
        context.appointments == old(context.appointments) && context.nextAppointmentId == old(context.nextAppointmentId)
    {
      var apt := Appointment(0, p.clientFullName, p.date, context.FindCenter(p.centerId));
      var v := ValidateAppointment(apt);
      match v
      case NullDereference =>
        r := Fault;
      case Errors(errors) =>
        if errors == [] {
          NoErrorsIff(context.appointments, apt);
          var a := apt.(id := context.nextAppointmentId);
          assert forall k :: k in context.appointments ==> k !in ConflictIds(context.appointments, apt);
          assert KeysBelow(context.appointments, context.nextAppointmentId + 1);
          PutKeepsStore(context.appointments, context.centers, context.nextAppointmentId + 1, a);
          context.appointments := context.appointments[a.id := a];
          context.nextAppointmentId := context.nextAppointmentId + 1;
          r := Created(a);
        } else {
          r := BadRequest(errors);
        }
    }

    /** `Update`: NotFound before any validation when the id is unknown;
        otherwise replace the three fields, validate, and commit only on an
        empty list. The id and every other record stay as they were. */
    method Update(id: int, p: AppointmentParameters) returns (r: Response<()>)
      requires context.Valid()
      modifies context
      ensures context.Valid()
      ensures context.centers == old(context.centers) && context.centerTypes == old(context.centerTypes)
      ensures context.nextAppointmentId == old(context.nextAppointmentId)
      ensures id !in old(context.appointments) ==> r == NotFound
      ensures id in old(context.appointments) ==>
        var updated := Appointment(id, p.clientFullName, p.date, context.FindCenter(p.centerId));
        var v := Validate(old(context.appointments), updated);
        && (r == Fault <==> v.NullDereference?)
        && (r.BadRequest? <==> v.Errors? && v.errors != [])
        && (r.BadRequest? ==> r.errors == v.errors)
        && (r == NoContent <==> v == Errors([]))
        && (r == NoContent ==> context.appointments == old(context.appointments)[id := updated])
      ensures r != NoContent ==> context.appointments == old(context.appointments)
    {
      var modItem := context.FindAppointment(id);
      if modItem.None? {
        return NotFound;
      }
      var updated := modItem.value.(
        clientFullName := p.clientFullName,
        date := p.date,
        center := context.FindCenter(p.centerId));
      var v := ValidateAppointment(updated);
      match v
      case NullDereference =>
        r := Fault;
      case Errors(errors) =>
        if errors == [] {
          NoErrorsIff(context.appointments, updated);
          assert forall k :: k in context.appointments && k != id ==> k !in ConflictIds(context.appointments, updated);
          PutKeepsStore(context.appointments, context.centers, context.nextAppointmentId, updated);
          context.appointments := context.appointments[id := updated];
          r := NoContent;
        } else {
          r := BadRequest(errors);
        }
    }

    /** `Delete`: NotFound for an unknown id; otherwise remove exactly that record. */
    method Delete(id: int) returns (r: Response<()>)
      requires context.Valid()
      modifies context
      ensures context.Valid()
      ensures context.centers == old(context.centers) && context.centerTypes == old(context.centerTypes)
      ensures context.nextAppointmentId == old(context.nextAppointmentId)
      ensures id !in old(context.appointments) ==> r == NotFound && context.appointments == old(context.appointments)
      ensures id in old(context.appointments) ==> r == NoContent && context.appointments == old(context.appointments) - {id}
    {
      var item := context.FindAppointment(id);
      if item.None? {
        return NotFound;
      }
      context.appointments := context.appointments - {id};
      r := NoContent;
    }
  }

  /** Storing a validated record under its own generated key keeps every
      appointment clause of the store invariant. */
  lemma PutKeepsStore(apts: map<int, Appointment>, centers: map<int, Center>, next: int, a: Appointment)
    requires Keyed(apts) && KeysBelow(apts, next) && AllBooked(apts)
    requires AtStoredCenters(apts, centers) && AllDated(apts) && UniqueSlots(apts)
    requires 1 <= a.id < next
    requires a.center.Some? && a.center.value.id in centers && centers[a.center.value.id] == a.center.value
    requires TryParseExact(a.date).Some?
    requires forall k :: k in apts && k != a.id ==> !SameSlot(apts[k], a)
    ensures var apts' := apts[a.id := a];
      && Keyed(apts') && KeysBelow(apts', next) && AllBooked(apts')
      && AtStoredCenters(apts', centers) && AllDated(apts') && UniqueSlots(apts')
  {
    InsertKeepsSlotsUnique(apts, a);
  }

  /** The conflict loop of `ValidateAppointment`: visit every stored
      appointment, skip the candidate's own id, dereference both centers and
      append one code 3 per appointment in the candidate's slot. */
  method ScanConflicts(apts: map<int, Appointment>, apt: Appointment, fieldErrors: seq<ValidationError>)
    returns (r: Validation)
    ensures r == if DereferencesNull(apts, apt) then NullDereference
                 else Errors(fieldErrors + Repeated(DateConflict, |ConflictIds(apts, apt)|))
  {
    var errors := fieldErrors;
    assert fieldErrors + Repeated(DateConflict, 0) == fieldErrors;
    ghost var conflicts := ConflictIds(apts, apt);
    var remaining := apts.Keys;
    ghost var seen: set<int> := {};
    ghost var n := 0;
    while remaining != {}
      invariant remaining <= apts.Keys && seen == apts.Keys - remaining
      invariant forall k :: k in seen && apts[k].id != apt.id ==> apts[k].center.Some? && apt.center.Some?
      invariant n == |conflicts * seen|
      invariant errors == fieldErrors + Repeated(DateConflict, n)
      decreases remaining
    {
      EmptyOrHasMember(remaining);
      var k :| k in remaining;
      var a := apts[k];
      CountStep(conflicts, seen, k);
      VisitStep(apts.Keys, remaining, k);
      if a.id != apt.id {
        if a.center.None? || apt.center.None? {
          return NullDereference;
        }
        if a.center.value.id == apt.center.value.id && a.date == apt.date {
          AppendConflict(fieldErrors, n);
          errors := errors + [DateConflict];
          n := n + 1;
        }
      }
      remaining := remaining - {k};
      seen := seen + {k};
    }
    assert seen == apts.Keys;
    assert conflicts * seen == conflicts;
    assert !DereferencesNull(apts, apt);
    r := Errors(errors);
  }

  /** Taking one more key out of the unvisited set adds it to the visited one. */
  lemma VisitStep(all: set<int>, remaining: set<int>, k: int)
    requires k in remaining && remaining <= all
    ensures all - (remaining - {k}) == (all - remaining) + {k}
  {
  }

  /** Visiting one more key adds one to the count exactly when it is a conflict. */
  lemma CountStep(conflicts: set<int>, seen: set<int>, k: int)
    requires k !in seen
    ensures |conflicts * (seen + {k})| == |conflicts * seen| + (if k in conflicts then 1 else 0)
  {
    if k in conflicts {
      assert conflicts * (seen + {k}) == conflicts * seen + {k};
    } else {
      assert conflicts * (seen + {k}) == conflicts * seen;
    }
  }

  lemma AppendConflict(f: seq<ValidationError>, n: nat)
    ensures f + Repeated(DateConflict, n) + [DateConflict] == f + Repeated(DateConflict, n + 1)
  {
  }

  /** A successful create is found again, identical, by its id. */
  method CreateThenGetById(c: AppointmentController, p: AppointmentParameters)
    returns (created: Response<Appointment>, found: Response<Appointment>)
    requires c.context.Valid()
    modifies c.context
    ensures created.Created? ==> found == Ok(created.value)
  {
    created := c.Create(p);
    if created.Created? {
      found := c.GetById(created.value.id);
    } else {
      found := NotFound;
    }
  }

  /** After a delete, the id is not found. */
  method DeleteThenGetById(c: AppointmentController, id: int)
    returns (deleted: Response<()>, found: Response<Appointment>)
    requires c.context.Valid()
    modifies c.context
    ensures (deleted == NoContent) == (id in old(c.context.appointments))
    ensures found == NotFound
  {
    deleted := c.Delete(id);
    found := c.GetById(id);
  }

  /** The same request twice: once the first is created, the second is
      rejected with a code 3 and the first stays as it was. */
  method BookTwice(c: AppointmentController, p: AppointmentParameters)
    returns (first: Response<Appointment>, second: Response<Appointment>)
    requires c.context.Valid()
    modifies c.context
    ensures first.Created? ==>
      && second.BadRequest? && HasCode(second.errors, 3)
      && c.context.appointments == old(c.context.appointments)[first.value.id := first.value]
  {
    first := c.Create(p);
    ghost var stored := c.context.appointments;
    ghost var candidate := Appointment(0, p.clientFullName, p.date, c.context.FindCenter(p.centerId));
    if first.Created? {
      RebookingConflicts(stored, candidate, first.value.id);
    }
    second := c.Create(p);
  }
}
