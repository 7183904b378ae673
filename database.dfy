/** The record store shared by both controllers: the three tables of the
    in-memory database (appointments, centers, center types), each keyed by
    its primary key, and the key generator that numbers new appointments.
    Assigning a field is the commit point of an operation (`SaveChanges`). */
module Database {
  import opened Models
  import opened DateFormat

  /** Every center is stored under its own id. */
  predicate CentersKeyed(m: map<int, Center>)
  {
    forall k :: k in m ==> m[k].id == k
  }

  /** Every center type is stored under its own id. */
  predicate TypesKeyed(m: map<int, CenterType>)
  {
    forall k :: k in m ==> m[k].id == k
  }

  /** Every stored appointment is stored under its own id. */
  predicate Keyed(apts: map<int, Appointment>)
  {
    forall k :: k in apts ==> apts[k].id == k
  }

  /** Every stored appointment has a center (validation never admits a null one). */
  predicate AllBooked(apts: map<int, Appointment>)
  {
    forall k :: k in apts ==> apts[k].center.Some?
  }

  /** Every stored appointment's date passes the strict parse (validation
      never admits one with code 2). */
  predicate AllDated(apts: map<int, Appointment>)
  {
    forall k :: k in apts ==> TryParseExact(apts[k].date).Some?
  }

  /** Every appointment key was handed out by the generator: positive and below `next`. */
  predicate KeysBelow(apts: map<int, Appointment>, next: int)
  {
    forall k :: k in apts ==> 1 <= k < next
  }

  /** Every center an appointment holds is the stored center with its id. */
  predicate AtStoredCenters(apts: map<int, Appointment>, centers: map<int, Center>)
  {
    forall k :: k in apts && apts[k].center.Some? ==>
      && apts[k].center.value.id in centers
      && centers[apts[k].center.value.id] == apts[k].center.value
  }

  /** Two appointments occupy the same slot: both have a center, the center
      ids are equal and the date strings are identical character by character. */
  predicate SameSlot(a: Appointment, b: Appointment)
  {
    && a.center.Some? && b.center.Some?
    && a.center.value.id == b.center.value.id
    && a.date == b.date
  }

  /** The booking invariant: no two stored appointments share a slot. */
  predicate UniqueSlots(apts: map<int, Appointment>)
  {
    forall j, k :: j in apts && k in apts && j != k ==> !SameSlot(apts[j], apts[k])
  }

  /** A set is empty or has a member (what a loop needs to pick one). */
  lemma EmptyOrHasMember(s: set<int>)
    ensures s == {} || exists x :: x in s
  {
    if forall x :: x !in s {
      assert s == {};
    }
  }

  /** `DbSet.ToList()`: every stored value once, in no promised order;
      `keys[i]` is the key `s[i]` is stored under. */
  method ToList<V>(m: map<int, V>) returns (s: seq<V>, ghost keys: seq<int>)
    ensures |keys| == |s| == |m.Keys|
    ensures forall i :: 0 <= i < |s| ==> keys[i] in m && s[i] == m[keys[i]]
    ensures forall k :: k in m ==> k in keys
    ensures forall i, j :: 0 <= i < j < |keys| ==> keys[i] != keys[j]
  {
    s, keys := [], [];
    var remaining := m.Keys;
    while remaining != {}
      invariant remaining <= m.Keys
      invariant |keys| == |s|
      invariant |s| + |remaining| == |m.Keys|
      invariant forall i :: 0 <= i < |s| ==> keys[i] in m && keys[i] !in remaining && s[i] == m[keys[i]]
      invariant forall k :: k in m && k !in remaining ==> k in keys
      invariant forall i, j :: 0 <= i < j < |keys| ==> keys[i] != keys[j]
      decreases remaining
    {
      EmptyOrHasMember(remaining);
      var k :| k in remaining;
      s, keys := s + [m[k]], keys + [k];
      remaining := remaining - {k};
    }
  }

  class ApiContext {
    var appointments: map<int, Appointment>
    var centers: map<int, Center>
    var centerTypes: map<int, CenterType>
    /** The next key the appointment table's value generator hands out. */
    var nextAppointmentId: int

    /** The store's invariants: tables keyed by primary key, appointment keys
        generated (positive and below the generator), every stored appointment
        booked at a stored center with a well-formed date, and no two
        appointments in the same slot. */
    ghost predicate Valid()
      reads this
    {
      && CentersKeyed(centers)
      && TypesKeyed(centerTypes)
      && 1 <= nextAppointmentId
      && Keyed(appointments)
      && KeysBelow(appointments, nextAppointmentId)
      && AllBooked(appointments)
      && AtStoredCenters(appointments, centers)
      && AllDated(appointments)
      && UniqueSlots(appointments)
    }

    /** A fresh, empty database. */
    constructor ()
      ensures Valid()
      ensures appointments == map[] && centers == map[] && centerTypes == map[]
    {
      appointments := map[];
      centers := map[];
      centerTypes := map[];
      nextAppointmentId := 1;
    }

    /** `Centers.Find(id)`: the stored center, or null. */
    function FindCenter(id: int): (r: Option<Center>)
      reads this
      ensures r.Some? <==> id in centers
      ensures r.Some? ==> r.value == centers[id]
    {
      if id in centers then Some(centers[id]) else None
    }

    /** `Appointments.Find(id)`: the stored appointment, or null. */
    function FindAppointment(id: int): (r: Option<Appointment>)
      reads this
      ensures r.Some? <==> id in appointments
      ensures r.Some? ==> r.value == appointments[id]
    {
      if id in appointments then Some(appointments[id]) else None
    }
  }
}
