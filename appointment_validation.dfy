/** What appointment validation computes, stated on values: the ordered error
    list (code 1 for a missing center, code 2 for a date that fails the strict
    "yyyy-dd-MM" parse, then one code 3 per other stored appointment in the
    same slot), or the null dereference the conflict loop runs into when a
    center is missing and some other appointment is stored. The controller's
    `ValidateAppointment` method is proved equal to `Validate`. */
module AppointmentValidation {
  import opened Models
  import opened Database
  import opened DateFormat

  const CenterMissing := ValidationError(1, "Center does not exist")
  const BadDateFormat := ValidationError(2, "Date is not in valid format. Please format date as yyyy-dd-MM")
  const DateConflict := ValidationError(3, "An appointment already exists at that center for that date.")

  /** The result of validation: the error list, or the exception thrown by
      dereferencing a null center inside the conflict loop. */
  datatype Validation = Errors(errors: seq<ValidationError>) | NullDereference

  /** `n` copies of one error, as the conflict loop appends them. */
  function Repeated(e: ValidationError, n: nat): (r: seq<ValidationError>)
    ensures |r| == n
  {
    if n == 0 then [] else Repeated(e, n - 1) + [e]
  }

  lemma {:induction false} RepeatedAt(e: ValidationError, n: nat)
    ensures forall i :: 0 <= i < n ==> Repeated(e, n)[i] == e
  {
    if n > 0 {
      RepeatedAt(e, n - 1);
    }
  }

  /** The conflict loop visits a stored appointment with a different id while
      its center or the candidate's is null, and so throws. */
  predicate DereferencesNull(apts: map<int, Appointment>, apt: Appointment)
  {
    exists k :: k in apts && apts[k].id != apt.id && (apts[k].center.None? || apt.center.None?)
  }

  /** The stored appointments, other than the candidate itself (matched by id),
      that occupy the candidate's slot: same center id and identical date string. */
  function ConflictIds(apts: map<int, Appointment>, apt: Appointment): set<int>
  {
    set k | k in apts && apts[k].id != apt.id && SameSlot(apts[k], apt)
  }

  /** The errors of the two field checks, in order. */
  function FieldErrors(apt: Appointment): seq<ValidationError>
  {
    (if apt.center.None? then [CenterMissing] else [])
    + (if TryParseExact(apt.date).None? then [BadDateFormat] else [])
  }

  /** `ValidateAppointment` on values. */
  function Validate(apts: map<int, Appointment>, apt: Appointment): Validation
  {
    if DereferencesNull(apts, apt) then NullDereference
    else Errors(FieldErrors(apt) + Repeated(DateConflict, |ConflictIds(apts, apt)|))
  }

  predicate HasCode(es: seq<ValidationError>, code: int)
  {
    exists i :: 0 <= i < |es| && es[i].code == code
  }

  function CountCode(es: seq<ValidationError>, code: int): nat
  {
    if es == [] then 0
    else CountCode(es[..|es| - 1], code) + (if es[|es| - 1].code == code then 1 else 0)
  }

  lemma {:induction false} CountCodeAppend(a: seq<ValidationError>, b: seq<ValidationError>, code: int)
    ensures CountCode(a + b, code) == CountCode(a, code) + CountCode(b, code)
    decreases |b|
  {
    if b != [] {
      assert (a + b)[..|a + b| - 1] == a + b[..|b| - 1];
      CountCodeAppend(a, b[..|b| - 1], code);
    } else {
      assert a + b == a;
    }
  }

  lemma {:induction false} CountRepeated(e: ValidationError, n: nat)
    ensures CountCode(Repeated(e, n), e.code) == n
  {
    if n > 0 {
      assert Repeated(e, n)[..n - 1] == Repeated(e, n - 1);
      CountRepeated(e, n - 1);
    }
  }

  /** Entry `i` of the list: the field errors first, then only code 3 entries. */
  lemma ErrorAt(apts: map<int, Appointment>, apt: Appointment)
    requires Validate(apts, apt).Errors?
    ensures var f, es := FieldErrors(apt), Validate(apts, apt).errors;
      forall i :: 0 <= i < |es| ==> es[i] == (if i < |f| then f[i] else DateConflict)
  {
    RepeatedAt(DateConflict, |ConflictIds(apts, apt)|);
  }

  lemma {:induction false} CountAbsent(es: seq<ValidationError>, code: int)
    requires forall i :: 0 <= i < |es| ==> es[i].code != code
    ensures CountCode(es, code) == 0
  {
    if es != [] {
      CountAbsent(es[..|es| - 1], code);
    }
  }

  /** The checks never short-circuit, and the list is ordered: code 1 (at most
      once), then code 2 (at most once), then the code 3 entries. */
  lemma ErrorOrder(apts: map<int, Appointment>, apt: Appointment)
    requires Validate(apts, apt).Errors?
    ensures var es := Validate(apts, apt).errors;
      && (forall i :: 0 <= i < |es| ==> 1 <= es[i].code <= 3)
      && (forall i, j :: 0 <= i < j < |es| ==> es[i].code <= es[j].code)
      && (forall i, j :: 0 <= i < j < |es| && es[i].code == es[j].code ==> es[i].code == 3)
  {
    var f := FieldErrors(apt);
    assert |f| <= 2 && (|f| == 2 ==> f == [CenterMissing, BadDateFormat]);
    ErrorAt(apts, apt);
  }

  /** Code 1 is in the list exactly when the center lookup found nothing. */
  lemma CodeOneIff(apts: map<int, Appointment>, apt: Appointment)
    requires Validate(apts, apt).Errors?
    ensures HasCode(Validate(apts, apt).errors, 1) <==> apt.center.None?
  {
    var es := Validate(apts, apt).errors;
    ErrorAt(apts, apt);
    if apt.center.None? {
      assert es[0].code == 1;
    }
  }

  /** Code 2 is in the list exactly when the date fails the strict parse. */
  lemma CodeTwoIff(apts: map<int, Appointment>, apt: Appointment)
    requires Validate(apts, apt).Errors?
    ensures HasCode(Validate(apts, apt).errors, 2) <==> TryParseExact(apt.date).None?
  {
    var f := FieldErrors(apt);
    var es := Validate(apts, apt).errors;
    ErrorAt(apts, apt);
    if TryParseExact(apt.date).None? {
      assert es[|f| - 1].code == 2;
    }
  }

  /** One code 3 per stored appointment with a different id in the same slot. */
  lemma CodeThreeCount(apts: map<int, Appointment>, apt: Appointment)
    requires Validate(apts, apt).Errors?
    ensures CountCode(Validate(apts, apt).errors, 3) == |ConflictIds(apts, apt)|
  {
    var f := FieldErrors(apt);
    var n := |ConflictIds(apts, apt)|;
    CountCodeAppend(f, Repeated(DateConflict, n), 3);
    CountRepeated(DateConflict, n);
    CountAbsent(f, 3);
  }

  /** With every stored appointment booked, validation throws exactly when the
      candidate's center is missing and some appointment with another id is stored. */
  lemma NullDereferenceIff(apts: map<int, Appointment>, apt: Appointment)
    requires AllBooked(apts)
    ensures Validate(apts, apt).NullDereference?
        <==> apt.center.None? && exists k :: k in apts && apts[k].id != apt.id
  {
  }

  /** With every stored appointment booked, validation returns an empty list
      exactly when the center exists, the date parses and no other stored
      appointment occupies the slot. */
  lemma NoErrorsIff(apts: map<int, Appointment>, apt: Appointment)
    requires AllBooked(apts)
    ensures Validate(apts, apt) == Errors([])
        <==> apt.center.Some? && TryParseExact(apt.date).Some? && ConflictIds(apts, apt) == {}
  {
    if apt.center.Some? && TryParseExact(apt.date).Some? && ConflictIds(apts, apt) == {} {
      assert !DereferencesNull(apts, apt);
      assert FieldErrors(apt) == [];
    }
  }

  /** The record being updated never counts against itself: validating against
      the store equals validating against the store without it. */
  lemma OwnRecordIgnored(apts: map<int, Appointment>, apt: Appointment)
    requires apt.id in apts && apts[apt.id].id == apt.id
    ensures Validate(apts, apt) == Validate(apts - {apt.id}, apt)
  {
    var rest := apts - {apt.id};
    assert ConflictIds(apts, apt) == ConflictIds(rest, apt);
    assert DereferencesNull(apts, apt) ==> DereferencesNull(rest, apt) by {
      if DereferencesNull(apts, apt) {
        var k :| k in apts && apts[k].id != apt.id && (apts[k].center.None? || apt.center.None?);
        assert k in rest;
      }
    }
  }

  /** Keeping an appointment in its own slot on update raises no code 3 when
      the store's slots are unique. */
  lemma SameSlotUpdateNoConflict(apts: map<int, Appointment>, apt: Appointment)
    requires UniqueSlots(apts) && Keyed(apts)
    requires apt.id in apts && SameSlot(apts[apt.id], apt)
    ensures ConflictIds(apts, apt) == {}
  {
    forall k | k in apts && apts[k].id != apt.id ensures !SameSlot(apts[k], apt) {
      assert !SameSlot(apts[k], apts[apt.id]);
    }
  }

  /** An identical booking of a stored slot by a new request gets a code 3. */
  lemma RebookingConflicts(apts: map<int, Appointment>, apt: Appointment, k: int)
    requires AllBooked(apts)
    requires k in apts && apts[k].id != apt.id && SameSlot(apts[k], apt)
    ensures Validate(apts, apt).Errors?
    ensures HasCode(Validate(apts, apt).errors, 3)
  {
    assert k in ConflictIds(apts, apt);
    var es := Validate(apts, apt).errors;
    var f := FieldErrors(apt);
    ErrorAt(apts, apt);
    assert es[|f|] == DateConflict;
  }

  /** For a candidate whose date parses, comparing raw date strings is the
      same as comparing calendar days: the conflicts are exactly the other
      stored appointments at the same center on the same parsed day. */
  lemma ConflictsAreSameDay(apts: map<int, Appointment>, apt: Appointment)
    requires TryParseExact(apt.date).Some?
    ensures ConflictIds(apts, apt)
         == set k | k in apts && apts[k].id != apt.id
                    && apts[k].center.Some? && apt.center.Some?
                    && apts[k].center.value.id == apt.center.value.id
                    && TryParseExact(apts[k].date) == TryParseExact(apt.date)
  {
    var sameDay := set k | k in apts && apts[k].id != apt.id
                           && apts[k].center.Some? && apt.center.Some?
                           && apts[k].center.value.id == apt.center.value.id
                           && TryParseExact(apts[k].date) == TryParseExact(apt.date);
    forall k | k in sameDay ensures k in ConflictIds(apts, apt) {
      SameDayIsSameString(apt.date, apts[k].date);
    }
    forall k | k in ConflictIds(apts, apt) ensures k in sameDay {
      assert SameSlot(apts[k], apt);
    }
  }

  /** A candidate without a center and with a malformed date, against a store
      holding nothing but possibly itself, gets both codes in one list. */
  lemma MissingCenterAndBadDate(apts: map<int, Appointment>, apt: Appointment)
    requires apt.center.None? && TryParseExact(apt.date).None?
    requires forall k :: k in apts ==> apts[k].id == apt.id
    ensures Validate(apts, apt) == Errors([CenterMissing, BadDateFormat])
  {
    assert forall k :: k !in ConflictIds(apts, apt);
    assert ConflictIds(apts, apt) == {};
  }

  /** Adding a record whose slot no stored record occupies keeps slots unique. */
  lemma InsertKeepsSlotsUnique(apts: map<int, Appointment>, a: Appointment)
    requires UniqueSlots(apts)
    requires forall k :: k in apts && k != a.id ==> !SameSlot(apts[k], a)
    ensures UniqueSlots(apts[a.id := a])
  {
  }
}
