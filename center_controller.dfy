/** The center service (`CenterController`): read-only access to the seeded
    center table. Neither action declares a `modifies` clause, so no call
    changes the store. */
module Centers {
  import opened Models
  import opened Database
  import opened CenterDbPrep

  class CenterController {
    const context: ApiContext

    /** Allocation only; `New` is the constructor with its seeding guard. */
    constructor (context: ApiContext)
      ensures this.context == context
    {
      this.context := context;
    }

    /** The controller's constructor: seed the catalog when it has no center.
        A seed that throws aborts construction, shown here as `null`. */
    static method New(context: ApiContext, file: CenterJsonFile) returns (c: CenterController?)
      requires context.Valid()
      modifies context
      ensures context.Valid()
      ensures context.appointments == old(context.appointments)
      ensures context.nextAppointmentId == old(context.nextAppointmentId)
      ensures var s := SeedIfEmpty(Catalog(old(context.centerTypes), old(context.centers)), file);
        && (c == null <==> s.None?)
        && (c != null ==> fresh(c) && c.context == context
                          && Catalog(context.centerTypes, context.centers) == s.value)
        && (c == null ==> context.centerTypes == old(context.centerTypes)
                          && context.centers == old(context.centers))
    {
      if |context.centers| == 0 {
        var ok := PrepCentersDb(context, file);
        if !ok {
          return null;
        }
      }
      c := new CenterController(context);
    }

    /** Every stored center exactly once, as stored. */
    method GetAll() returns (r: seq<Center>)
      requires context.Valid()
      ensures |r| == |context.centers.Keys|
      ensures forall id :: id in context.centers ==> context.centers[id] in r
      ensures forall i :: 0 <= i < |r| ==> r[i].id in context.centers && context.centers[r[i].id] == r[i]
      ensures forall i, j :: 0 <= i < j < |r| ==> r[i].id != r[j].id
    {
      ghost var keys;
      r, keys := ToList(context.centers);
      forall id | id in context.centers ensures context.centers[id] in r {
        var i :| 0 <= i < |keys| && keys[i] == id;
        assert r[i] == context.centers[id];
      }
    }

    /** The stored center with that id, or NotFound. */
    method GetCenter(id: int) returns (r: Response<Center>)
      ensures id in context.centers ==> r == Ok(context.centers[id])
      ensures id !in context.centers ==> r == NotFound
    {
      var ctr := context.FindCenter(id);
      if ctr.None? {
        return NotFound;
      }
      r := Ok(ctr.value);
    }
  }

  /** Listing the centers and then fetching each one by its id yields that
      same record: the list and the single lookup agree. */
  method ListThenGet(c: CenterController, i: int) returns (listed: seq<Center>, found: Response<Center>)
    requires c.context.Valid()
    requires 0 <= i
    ensures i < |listed| ==> found == Ok(listed[i])
  {
    listed := c.GetAll();
    if i < |listed| {
      found := c.GetCenter(listed[i].id);
    } else {
      found := NotFound;
    }
  }
}
